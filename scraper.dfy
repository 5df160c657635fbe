/** The collecting loop of `TwitterScraper.get_tweets`: page snapshots come
    in as ordered text segments; segments between two occurrences of the
    profile's handle form one post; posts are cleaned, deduplicated by
    hash and collected until `tweet_limit` is reached or `scroll_count`
    snapshots have been read.

    The pure functions Scan (one snapshot) and Crawl (the scroll loop) are
    the reference definition; the class TwitterScraper holds the state the
    source mutates and its GetTweets method is proved against them. */
module Scraper {
  import opened Text
  import opened Cleanup

  /** The middle-dot segment that separates a post's metadata items. */
  const Dot: string := "\U{B7}"

  /** The text stored for a flushed buffer: the segments joined with single
      spaces, stripped, then cleaned (not stripped again). */
  function PostText(buf: seq<string>): string {
    Clean(Strip(Join(buf, " ")))
  }

  /** A stored post only loses characters relative to the stripped joined
      buffer. */
  lemma PostTextShrinks(buf: seq<string>)
    ensures IsSubsequence(PostText(buf), Strip(Join(buf, " ")))
    ensures |PostText(buf)| <= |Strip(Join(buf, " "))| <= |Join(buf, " ")|
  {
    CleanDeletes(Strip(Join(buf, " ")));
  }

  /** What has been collected so far: `tweet_texts` and `tweet_ids`. */
  datatype Tally = Tally(texts: seq<string>, ids: set<int>)

  /** The seen set holds exactly the hashes of the collected posts, and no
      two collected posts share a hash. */
  predicate Consistent(t: Tally, hash: string -> int) {
    && t.ids == (set x | x in t.texts :: hash(x))
    && forall i, j :: 0 <= i < j < |t.texts| ==> hash(t.texts[i]) != hash(t.texts[j])
  }

  /** Whether a collected list of posts has two equal entries. */
  predicate NoDuplicates(texts: seq<string>) {
    forall i, j :: 0 <= i < j < |texts| ==> texts[i] != texts[j]
  }

  /** Distinct hashes imply distinct texts. */
  lemma ConsistentNoDuplicates(t: Tally, hash: string -> int)
    requires Consistent(t, hash)
    ensures NoDuplicates(t.texts)
    ensures |t.ids| == |t.texts|
  {
    DistinctHashesCount(t.texts, hash);
  }

  lemma {:induction false} DistinctHashesCount(texts: seq<string>, hash: string -> int)
    requires forall i, j :: 0 <= i < j < |texts| ==> hash(texts[i]) != hash(texts[j])
    ensures |set x | x in texts :: hash(x)| == |texts|
    decreases |texts|
  {
    if texts != [] {
      var init := texts[..|texts| - 1];
      var last := texts[|texts| - 1];
      DistinctHashesCount(init, hash);
      assert texts == init + [last];
      assert (set x | x in texts :: hash(x)) == (set x | x in init :: hash(x)) + {hash(last)};
      assert hash(last) !in (set x | x in init :: hash(x));
    }
  }

  /** Lines 52-55: a post is kept only when its hash has not been seen. */
  function Record(t: Tally, post: string, hash: string -> int): Tally {
    if hash(post) in t.ids then t else Tally(t.texts + [post], t.ids + {hash(post)})
  }

  /** Recording keeps the tally consistent, extends the list by at most the
      post itself, and leaves the post's hash among the seen ones. */
  lemma RecordConsistent(t: Tally, post: string, hash: string -> int)
    requires Consistent(t, hash)
    ensures var r := Record(t, post, hash);
      && Consistent(r, hash)
      && hash(post) in r.ids
      && (r.texts == t.texts || r.texts == t.texts + [post])
      && (r.texts == t.texts + [post] <==> hash(post) !in t.ids)
  {
    if hash(post) !in t.ids {
      var texts := t.texts + [post];
      assert (set x | x in texts :: hash(x)) == (set x | x in t.texts :: hash(x)) + {hash(post)};
      forall i, j | 0 <= i < j < |texts| ensures hash(texts[i]) != hash(texts[j]) {
        if j == |t.texts| {
          assert texts[i] in t.texts;
        } else {
          assert texts[i] == t.texts[i] && texts[j] == t.texts[j];
        }
      }
    }
  }

  /** How one snapshot's scan ended: the tally, and whether the limit cut it
      short (the `break` at line 58). */
  datatype ScanResult = ScanResult(tally: Tally, stopped: bool)

  /** Lines 43-60: the inner loop over one snapshot's segments, with `buf`
      holding `current_tweet`. Whatever is left in the buffer at the end of
      the snapshot is dropped. */
  function Scan(segs: seq<string>, handle: string, limit: int, hash: string -> int,
                t: Tally, buf: seq<string>): ScanResult
    decreases |segs|
  {
    if segs == [] then ScanResult(t, false)
    else if segs[0] == Dot then Scan(segs[1..], handle, limit, hash, t, buf)
    else if segs[0] == handle then
      if buf == [] then Scan(segs[1..], handle, limit, hash, t, buf)
      else
        var t' := Record(t, PostText(buf), hash);
        if |t'.texts| >= limit then ScanResult(t', true)
        else Scan(segs[1..], handle, limit, hash, t', [])
    else Scan(segs[1..], handle, limit, hash, t, buf + [segs[0]])
  }

  /** Scanning keeps the tally consistent and only appends to the list. */
  lemma {:induction false} ScanConsistent(segs: seq<string>, handle: string, limit: int,
                                          hash: string -> int, t: Tally, buf: seq<string>)
    requires Consistent(t, hash)
    ensures var r := Scan(segs, handle, limit, hash, t, buf).tally;
      Consistent(r, hash) && t.texts <= r.texts
    decreases |segs|
  {
    if segs != [] {
      if segs[0] == Dot {
        ScanConsistent(segs[1..], handle, limit, hash, t, buf);
      } else if segs[0] == handle {
        if buf == [] {
          ScanConsistent(segs[1..], handle, limit, hash, t, buf);
        } else {
          var t' := Record(t, PostText(buf), hash);
          RecordConsistent(t, PostText(buf), hash);
          if |t'.texts| < limit {
            ScanConsistent(segs[1..], handle, limit, hash, t', []);
          }
        }
      } else {
        ScanConsistent(segs[1..], handle, limit, hash, t, buf + [segs[0]]);
      }
    }
  }

  /** Starting below the limit, a scan never passes it, and it stops early
      exactly when it reaches it. */
  lemma {:induction false} ScanBound(segs: seq<string>, handle: string, limit: int,
                                     hash: string -> int, t: Tally, buf: seq<string>)
    requires |t.texts| < limit
    ensures var r := Scan(segs, handle, limit, hash, t, buf);
      |r.tally.texts| <= limit && (r.stopped <==> |r.tally.texts| == limit)
    decreases |segs|
  {
    if segs != [] {
      if segs[0] == Dot || (segs[0] == handle && buf == []) {
        ScanBound(segs[1..], handle, limit, hash, t, buf);
      } else if segs[0] == handle {
        var t' := Record(t, PostText(buf), hash);
        assert |t'.texts| <= |t.texts| + 1;
        if |t'.texts| < limit {
          ScanBound(segs[1..], handle, limit, hash, t', []);
        }
      } else {
        ScanBound(segs[1..], handle, limit, hash, t, buf + [segs[0]]);
      }
    }
  }

  /** A scan that stopped at the limit never looked at later segments. */
  lemma {:induction false} ScanIgnoresRest(segs: seq<string>, rest: seq<string>, handle: string,
                                           limit: int, hash: string -> int, t: Tally, buf: seq<string>)
    requires Scan(segs, handle, limit, hash, t, buf).stopped
    ensures Scan(segs + rest, handle, limit, hash, t, buf) == Scan(segs, handle, limit, hash, t, buf)
    decreases |segs|
  {
    assert segs != [];
    assert (segs + rest)[0] == segs[0] && (segs + rest)[1..] == segs[1..] + rest;
    if segs[0] == Dot || (segs[0] == handle && buf == []) {
      ScanIgnoresRest(segs[1..], rest, handle, limit, hash, t, buf);
    } else if segs[0] == handle {
      var t' := Record(t, PostText(buf), hash);
      if |t'.texts| < limit {
        ScanIgnoresRest(segs[1..], rest, handle, limit, hash, t', []);
      }
    } else {
      ScanIgnoresRest(segs[1..], rest, handle, limit, hash, t, buf + [segs[0]]);
    }
  }

  /** Segments with no handle among them never flush the buffer. */
  lemma {:induction false} ScanWithoutHandle(segs: seq<string>, handle: string, limit: int,
                                             hash: string -> int, t: Tally, buf: seq<string>)
    requires handle !in segs
    ensures Scan(segs, handle, limit, hash, t, buf) == ScanResult(t, false)
    decreases |segs|
  {
    if segs != [] {
      assert segs[0] in segs;
      assert forall x :: x in segs[1..] ==> x in segs;
      if segs[0] == Dot {
        ScanWithoutHandle(segs[1..], handle, limit, hash, t, buf);
      } else {
        ScanWithoutHandle(segs[1..], handle, limit, hash, t, buf + [segs[0]]);
      }
    }
  }

  /** Segments after a snapshot's last handle produce no post: appending
      handle-free segments changes nothing about the scan. */
  lemma {:induction false} ScanDropsTrailing(segs: seq<string>, rest: seq<string>, handle: string,
                                             limit: int, hash: string -> int, t: Tally, buf: seq<string>)
    requires handle !in rest
    ensures Scan(segs + rest, handle, limit, hash, t, buf) == Scan(segs, handle, limit, hash, t, buf)
    decreases |segs|
  {
    if segs == [] {
      assert segs + rest == rest;
      ScanWithoutHandle(rest, handle, limit, hash, t, buf);
    } else {
      assert (segs + rest)[0] == segs[0] && (segs + rest)[1..] == segs[1..] + rest;
      if segs[0] == Dot || (segs[0] == handle && buf == []) {
        ScanDropsTrailing(segs[1..], rest, handle, limit, hash, t, buf);
      } else if segs[0] == handle {
        var t' := Record(t, PostText(buf), hash);
        if |t'.texts| < limit {
          ScanDropsTrailing(segs[1..], rest, handle, limit, hash, t', []);
        }
      } else {
        ScanDropsTrailing(segs[1..], rest, handle, limit, hash, t, buf + [segs[0]]);
      }
    }
  }

  /** The segments of `s` other than the middle dot, in order: what the
      buffer keeps of them (lines 45-47, 60). */
  function WithoutDots(s: seq<string>): seq<string>
    decreases |s|
  {
    if s == [] then [] else (if s[0] == Dot then [] else [s[0]]) + WithoutDots(s[1..])
  }

  lemma {:induction false} WithoutDotsAppend(x: seq<string>, y: seq<string>)
    ensures WithoutDots(x + y) == WithoutDots(x) + WithoutDots(y)
    decreases |x|
  {
    if x == [] {
      assert x + y == y;
    } else {
      assert (x + y)[0] == x[0] && (x + y)[1..] == x[1..] + y;
      WithoutDotsAppend(x[1..], y);
    }
  }

  /** `src[i..j]` is a post block: it starts at the beginning of the
      snapshot or right after a handle, the handle at `j` closes it, no
      handle occurs inside it, and it holds a segment other than the middle
      dot. */
  predicate BlockAt(src: seq<string>, handle: string, i: int, j: int) {
    && 0 <= i <= j < |src|
    && src[j] == handle
    && (i == 0 || src[i - 1] == handle)
    && handle !in src[i..j]
    && WithoutDots(src[i..j]) != []
  }

  /** A closing handle closes one block only: the block cannot reach back
      past the previous handle. */
  lemma BlockAtUnique(src: seq<string>, handle: string, i: int, i': int, j: int)
    requires BlockAt(src, handle, i, j) && BlockAt(src, handle, i', j)
    ensures i == i'
  {
    BlockHasNoHandle(src, handle, i, j);
    BlockHasNoHandle(src, handle, i', j);
  }

  /** No segment of a block is the handle. */
  lemma BlockHasNoHandle(src: seq<string>, handle: string, i: int, j: int)
    requires BlockAt(src, handle, i, j)
    ensures forall k :: i <= k < j ==> src[k] != handle
  {
    forall k | i <= k < j ensures src[k] != handle {
      assert src[k] == src[i..j][k - i];
    }
  }

  /** `p` is the stored text of a post block of `src`: its segments other
      than the middle dot, in order. */
  ghost predicate IsPostOf(p: string, src: seq<string>, handle: string) {
    exists i, j :: BlockAt(src, handle, i, j) && p == PostText(WithoutDots(src[i..j]))
  }

  /** With the middle dot as handle nothing is ever flushed. */
  lemma {:induction false} ScanDotHandle(segs: seq<string>, limit: int, hash: string -> int,
                                         t: Tally, buf: seq<string>)
    ensures Scan(segs, Dot, limit, hash, t, buf) == ScanResult(t, false)
    decreases |segs|
  {
    if segs != [] {
      if segs[0] == Dot {
        ScanDotHandle(segs[1..], limit, hash, t, buf);
      } else {
        ScanDotHandle(segs[1..], limit, hash, t, buf + [segs[0]]);
      }
    }
  }

  /** Every post a scan of one snapshot adds is the text of one of the
      snapshot's post blocks. */
  lemma ScanPostsFromBlocks(segs: seq<string>, handle: string, limit: int, hash: string -> int,
                            t: Tally)
    ensures forall n :: |t.texts| <= n < |Scan(segs, handle, limit, hash, t, []).tally.texts| ==>
      IsPostOf(Scan(segs, handle, limit, hash, t, []).tally.texts[n], segs, handle)
  {
    if handle == Dot {
      ScanDotHandle(segs, limit, hash, t, []);
    } else {
      assert [] + segs == segs;
      ScanPostsFrom(segs, [], handle, limit, hash, t, [], 0);
    }
  }

  /** The general case of ScanPostsFromBlocks: `seen` is the part of the
      snapshot already scanned; the buffer holds the segments other than the
      middle dot of `seen[i..]`, the open block that began at the start or
      right after the last handle. */
  lemma {:induction false} ScanPostsFrom(segs: seq<string>, seen: seq<string>, handle: string,
                                         limit: int, hash: string -> int, t: Tally,
                                         buf: seq<string>, i: nat)
    requires handle != Dot
    requires i <= |seen| && (i == 0 || seen[i - 1] == handle) && handle !in seen[i..]
    requires buf == WithoutDots(seen[i..])
    ensures forall n :: |t.texts| <= n < |Scan(segs, handle, limit, hash, t, buf).tally.texts| ==>
      IsPostOf(Scan(segs, handle, limit, hash, t, buf).tally.texts[n], seen + segs, handle)
    decreases |segs|, 1
  {
    if segs != [] {
      var seen' := seen + [segs[0]];
      assert seen' + segs[1..] == seen + segs;
      if segs[0] == Dot {
        assert seen'[i..] == seen[i..] + [Dot];
        WithoutDotsAppend(seen[i..], [Dot]);
        assert WithoutDots([Dot]) == [];
        ScanPostsFrom(segs[1..], seen', handle, limit, hash, t, buf, i);
      } else if segs[0] == handle && buf == [] {
        assert seen'[|seen'|..] == [];
        ScanPostsFrom(segs[1..], seen', handle, limit, hash, t, buf, |seen'|);
      } else if segs[0] == handle {
        FlushFromBlock(segs, seen, handle, limit, hash, t, buf, i);
      } else {
        assert seen'[i..] == seen[i..] + [segs[0]];
        WithoutDotsAppend(seen[i..], [segs[0]]);
        assert WithoutDots([segs[0]]) == [segs[0]];
        ScanPostsFrom(segs[1..], seen', handle, limit, hash, t, buf + [segs[0]], i);
      }
    }
  }

  /** The flush case of ScanPostsFrom. */
  lemma {:induction false} FlushFromBlock(segs: seq<string>, seen: seq<string>, handle: string,
                                          limit: int, hash: string -> int, t: Tally,
                                          buf: seq<string>, i: nat)
    requires handle != Dot && segs != [] && segs[0] == handle && buf != []
    requires i <= |seen| && (i == 0 || seen[i - 1] == handle) && handle !in seen[i..]
    requires buf == WithoutDots(seen[i..])
    ensures forall n :: |t.texts| <= n < |Scan(segs, handle, limit, hash, t, buf).tally.texts| ==>
      IsPostOf(Scan(segs, handle, limit, hash, t, buf).tally.texts[n], seen + segs, handle)
    decreases |segs|, 0
  {
    var post := PostText(buf);
    var t' := Record(t, post, hash);
    var r := Scan(segs, handle, limit, hash, t, buf).tally;
    BlockIsPost(seen, segs, handle, i);
    if |t'.texts| < limit {
      var seen' := seen + [segs[0]];
      assert seen' + segs[1..] == seen + segs;
      assert r == Scan(segs[1..], handle, limit, hash, t', []).tally;
      assert seen'[|seen'|..] == [];
      ScanPostsFrom(segs[1..], seen', handle, limit, hash, t', [], |seen'|);
      ScanConsistentPrefix(segs[1..], handle, limit, hash, t', []);
      NewEntryIsPost(t, t', r, post, hash, seen + segs, handle);
    } else {
      assert r == t';
      NewEntryIsPost(t, t', r, post, hash, seen + segs, handle);
    }
  }

  lemma BlockIsPost(seen: seq<string>, segs: seq<string>, handle: string, i: nat)
    requires segs != [] && segs[0] == handle
    requires i <= |seen| && (i == 0 || seen[i - 1] == handle) && handle !in seen[i..]
    requires WithoutDots(seen[i..]) != []
    ensures IsPostOf(PostText(WithoutDots(seen[i..])), seen + segs, handle)
  {
    var src := seen + segs;
    assert src[i..|seen|] == seen[i..];
    assert src[|seen|] == handle;
    assert i == 0 || src[i - 1] == seen[i - 1];
    assert BlockAt(src, handle, i, |seen|);
  }

  lemma NewEntryIsPost(t: Tally, t': Tally, r: Tally, post: string, hash: string -> int,
                       src: seq<string>, handle: string)
    requires t' == Record(t, post, hash) && t'.texts <= r.texts
    requires IsPostOf(post, src, handle)
    requires forall i :: |t'.texts| <= i < |r.texts| ==> IsPostOf(r.texts[i], src, handle)
    ensures forall i :: |t.texts| <= i < |r.texts| ==> IsPostOf(r.texts[i], src, handle)
  {
    if |t'.texts| > |t.texts| {
      assert r.texts[|t.texts|] == t'.texts[|t.texts|] == post;
    }
  }

  /** Up to the closing handle, a block only feeds the buffer: its segments
      other than the middle dot are appended in order. */
  lemma {:induction false} ScanFillsBuffer(body: seq<string>, rest: seq<string>, handle: string,
                                           limit: int, hash: string -> int, t: Tally,
                                           buf: seq<string>)
    requires handle !in body
    ensures Scan(body + rest, handle, limit, hash, t, buf)
            == Scan(rest, handle, limit, hash, t, buf + WithoutDots(body))
    decreases |body|
  {
    if body == [] {
      assert body + rest == rest;
      assert buf + WithoutDots(body) == buf;
    } else {
      var s := body + rest;
      assert s[0] == body[0] && s[1..] == body[1..] + rest;
      assert body[0] in body;
      assert forall x :: x in body[1..] ==> x in body;
      ScanNonHandle(s, handle, limit, hash, t, buf);
      if body[0] == Dot {
        ScanFillsBuffer(body[1..], rest, handle, limit, hash, t, buf);
        assert WithoutDots(body) == WithoutDots(body[1..]);
      } else {
        ScanFillsBuffer(body[1..], rest, handle, limit, hash, t, buf + [body[0]]);
        assert WithoutDots(body) == [body[0]] + WithoutDots(body[1..]);
        assert buf + [body[0]] + WithoutDots(body[1..]) == buf + WithoutDots(body);
      }
    }
  }

  /** A segment other than the handle is skipped or buffered. */
  lemma ScanNonHandle(segs: seq<string>, handle: string, limit: int, hash: string -> int,
                      t: Tally, buf: seq<string>)
    requires segs != [] && segs[0] != handle
    ensures Scan(segs, handle, limit, hash, t, buf)
            == Scan(segs[1..], handle, limit, hash, t, if segs[0] == Dot then buf else buf + [segs[0]])
  {
  }

  /** The converse: a block closed by the handle is flushed as one post,
      made of what the buffer already held and the block's segments other
      than the middle dot; the scan then goes on with an empty buffer, or
      stops if the limit is reached. */
  lemma ScanFlushesBlock(body: seq<string>, rest: seq<string>, handle: string,
                         limit: int, hash: string -> int, t: Tally, buf: seq<string>)
    requires handle != Dot && handle !in body
    ensures Scan(body + [handle] + rest, handle, limit, hash, t, buf) ==
      if buf + WithoutDots(body) == [] then Scan(rest, handle, limit, hash, t, [])
      else if |Record(t, PostText(buf + WithoutDots(body)), hash).texts| >= limit then
        ScanResult(Record(t, PostText(buf + WithoutDots(body)), hash), true)
      else Scan(rest, handle, limit, hash, Record(t, PostText(buf + WithoutDots(body)), hash), [])
  {
    assert body + [handle] + rest == body + ([handle] + rest);
    ScanFillsBuffer(body, [handle] + rest, handle, limit, hash, t, buf);
    assert ([handle] + rest)[0] == handle && ([handle] + rest)[1..] == rest;
  }

  /** A snapshot laid out as blocks, each closed by the handle. */
  function Closed(bodies: seq<seq<string>>, handle: string): seq<string>
    decreases |bodies|
  {
    if bodies == [] then [] else bodies[0] + [handle] + Closed(bodies[1..], handle)
  }

  /** The posts those blocks make, in order: one for each block that holds a
      segment other than the middle dot. */
  function BlockPosts(bodies: seq<seq<string>>): seq<string>
    decreases |bodies|
  {
    if bodies == [] then []
    else (if WithoutDots(bodies[0]) == [] then [] else [PostText(WithoutDots(bodies[0]))])
         + BlockPosts(bodies[1..])
  }

  /** Recording posts one after another, stopping once the list reaches the
      limit. */
  function RecordAll(posts: seq<string>, limit: int, hash: string -> int, t: Tally): ScanResult
    decreases |posts|
  {
    if posts == [] then ScanResult(t, false)
    else
      var t' := Record(t, posts[0], hash);
      if |t'.texts| >= limit then ScanResult(t', true) else RecordAll(posts[1..], limit, hash, t')
  }

  /** Scanning handle-closed blocks followed by handle-free segments records
      the blocks' posts in order, until the limit. */
  lemma {:induction false} ScanBlocks(bodies: seq<seq<string>>, tail: seq<string>, handle: string,
                                      limit: int, hash: string -> int, t: Tally)
    requires handle != Dot && handle !in tail
    requires forall k :: 0 <= k < |bodies| ==> handle !in bodies[k]
    ensures Scan(Closed(bodies, handle) + tail, handle, limit, hash, t, [])
            == RecordAll(BlockPosts(bodies), limit, hash, t)
    decreases |bodies|
  {
    if bodies == [] {
      assert Closed(bodies, handle) + tail == tail;
      ScanWithoutHandle(tail, handle, limit, hash, t, []);
    } else {
      var rest := Closed(bodies[1..], handle) + tail;
      assert Closed(bodies, handle) + tail == bodies[0] + [handle] + rest;
      ScanFlushesBlock(bodies[0], rest, handle, limit, hash, t, []);
      var b := WithoutDots(bodies[0]);
      assert [] + b == b;
      var posts := BlockPosts(bodies);
      if b == [] {
        assert posts == BlockPosts(bodies[1..]);
        ScanBlocks(bodies[1..], tail, handle, limit, hash, t);
      } else {
        assert posts[0] == PostText(b) && posts[1..] == BlockPosts(bodies[1..]);
        var t' := Record(t, PostText(b), hash);
        if |t'.texts| < limit {
          ScanBlocks(bodies[1..], tail, handle, limit, hash, t');
        }
      }
    }
  }

  /** Posts with distinct, unseen hashes are all appended in order until
      the limit: exactly as many as fit, and the run stops early exactly
      when they do not all fit. */
  lemma {:induction false} RecordAllDistinct(posts: seq<string>, limit: int, hash: string -> int,
                                             t: Tally)
    requires |t.texts| < limit
    requires forall n :: 0 <= n < |posts| ==> hash(posts[n]) !in t.ids
    requires forall m, n :: 0 <= m < n < |posts| ==> hash(posts[m]) != hash(posts[n])
    ensures var fit := if |posts| < limit - |t.texts| then |posts| else limit - |t.texts|;
      && RecordAll(posts, limit, hash, t).tally.texts == t.texts + posts[..fit]
      && (RecordAll(posts, limit, hash, t).stopped <==> limit - |t.texts| <= |posts|)
    decreases |posts|
  {
    if posts != [] {
      var t' := Record(t, posts[0], hash);
      assert t'.texts == t.texts + [posts[0]];
      if |t'.texts| < limit {
        forall n | 0 <= n < |posts[1..]| ensures hash(posts[1..][n]) !in t'.ids {
          assert posts[1..][n] == posts[n + 1];
        }
        RecordAllDistinct(posts[1..], limit, hash, t');
        var fit := if |posts| < limit - |t.texts| then |posts| else limit - |t.texts|;
        assert posts[..fit] == [posts[0]] + posts[1..][..fit - 1];
      } else {
        assert posts[..1] == [posts[0]];
      }
    }
  }

  /** One snapshot of handle-closed blocks whose posts have distinct,
      unseen hashes: the list gains exactly min(number of posts, room left)
      entries, the posts in flush order. */
  lemma SnapshotPosts(bodies: seq<seq<string>>, tail: seq<string>, handle: string,
                      limit: int, hash: string -> int, t: Tally)
    requires handle != Dot && handle !in tail
    requires forall k :: 0 <= k < |bodies| ==> handle !in bodies[k]
    requires |t.texts| < limit
    requires forall n :: 0 <= n < |BlockPosts(bodies)| ==> hash(BlockPosts(bodies)[n]) !in t.ids
    requires forall m, n :: 0 <= m < n < |BlockPosts(bodies)| ==>
      hash(BlockPosts(bodies)[m]) != hash(BlockPosts(bodies)[n])
    ensures var posts := BlockPosts(bodies);
      var fit := if |posts| < limit - |t.texts| then |posts| else limit - |t.texts|;
      Scan(Closed(bodies, handle) + tail, handle, limit, hash, t, []).tally.texts == t.texts + posts[..fit]
  {
    ScanBlocks(bodies, tail, handle, limit, hash, t);
    RecordAllDistinct(BlockPosts(bodies), limit, hash, t);
  }

  /** The list only grows at the end (used where consistency is not at
      hand). */
  lemma {:induction false} ScanConsistentPrefix(segs: seq<string>, handle: string, limit: int,
                                                hash: string -> int, t: Tally, buf: seq<string>)
    ensures t.texts <= Scan(segs, handle, limit, hash, t, buf).tally.texts
    decreases |segs|
  {
    if segs != [] {
      if segs[0] == Dot || (segs[0] == handle && buf == []) {
        ScanConsistentPrefix(segs[1..], handle, limit, hash, t, buf);
      } else if segs[0] == handle {
        var t' := Record(t, PostText(buf), hash);
        if |t'.texts| < limit {
          ScanConsistentPrefix(segs[1..], handle, limit, hash, t', []);
        }
      } else {
        ScanConsistentPrefix(segs[1..], handle, limit, hash, t, buf + [segs[0]]);
      }
    }
  }

  /** One step of the scan at position `j` of a snapshot. */
  lemma ScanAt(segs: seq<string>, j: nat, handle: string, limit: int, hash: string -> int,
               t: Tally, buf: seq<string>)
    requires j < |segs|
    ensures Scan(segs[j..], handle, limit, hash, t, buf) ==
      if segs[j] == Dot || (segs[j] == handle && buf == []) then
        Scan(segs[j + 1..], handle, limit, hash, t, buf)
      else if segs[j] == handle then
        if |Record(t, PostText(buf), hash).texts| >= limit then
          ScanResult(Record(t, PostText(buf), hash), true)
        else Scan(segs[j + 1..], handle, limit, hash, Record(t, PostText(buf), hash), [])
      else Scan(segs[j + 1..], handle, limit, hash, t, buf + [segs[j]])
  {
    assert segs[j..][0] == segs[j] && segs[j..][1..] == segs[j + 1..];
  }

  /** How the scroll loop ended: the tally, how many snapshots were read
      and how many scroll steps were taken. */
  datatype Outcome = Outcome(tally: Tally, read: nat, scrolls: nat)

  /** Lines 38-64 from iteration `k` on: `page(k)` is the snapshot the
      browser shows after `k` scroll steps. The buffer starts empty for
      every snapshot (line 42). */
  function Crawl(page: nat -> seq<string>, k: nat, count: int, handle: string, limit: int,
                 hash: string -> int, t: Tally): Outcome
    decreases count - k
  {
    if k >= count then Outcome(t, k, k)
    else
      var t' := Scan(page(k), handle, limit, hash, t, []).tally;
      if |t'.texts| >= limit then Outcome(t', k + 1, k)
      else Crawl(page, k + 1, count, handle, limit, hash, t')
  }

  /** The invariants of the whole run: consistent tally, append-only list,
      and, from below the limit, never more posts than the limit. */
  lemma {:induction false} CrawlInvariants(page: nat -> seq<string>, k: nat, count: int, handle: string,
                                           limit: int, hash: string -> int, t: Tally)
    requires Consistent(t, hash)
    ensures var o := Crawl(page, k, count, handle, limit, hash, t);
      && Consistent(o.tally, hash)
      && t.texts <= o.tally.texts
      && (|t.texts| < limit ==> |o.tally.texts| <= limit)
    decreases count - k
  {
    if k < count {
      var t' := Scan(page(k), handle, limit, hash, t, []).tally;
      ScanConsistent(page(k), handle, limit, hash, t, []);
      if |t.texts| < limit {
        ScanBound(page(k), handle, limit, hash, t, []);
      }
      if |t'.texts| < limit {
        CrawlInvariants(page, k + 1, count, handle, limit, hash, t');
      }
    }
  }

  /** The loop reads at most `count` snapshots; a scroll step follows every
      snapshot except one after which the limit was reached; the run ends
      early exactly when the limit is reached. */
  lemma {:induction false} CrawlCounts(page: nat -> seq<string>, k: nat, count: int, handle: string,
                                       limit: int, hash: string -> int, t: Tally)
    ensures var o := Crawl(page, k, count, handle, limit, hash, t);
      && k <= o.scrolls <= o.read <= o.scrolls + 1
      && o.read <= (if count > k then count else k)
      && (o.scrolls < o.read ==> |o.tally.texts| >= limit)
      && (k < count ==> (o.scrolls < o.read <==> |o.tally.texts| >= limit))
      && (o.scrolls == o.read ==> o.read == (if count > k then count else k))
    decreases count - k
  {
    if k < count {
      var t' := Scan(page(k), handle, limit, hash, t, []).tally;
      if |t'.texts| < limit {
        CrawlCounts(page, k + 1, count, handle, limit, hash, t');
      }
    }
  }

  /** The run depends only on the snapshots it read: no later snapshot is
      looked at. */
  lemma {:induction false} CrawlReadsOnly(page: nat -> seq<string>, other: nat -> seq<string>, k: nat,
                                          count: int, handle: string, limit: int,
                                          hash: string -> int, t: Tally)
    requires forall i: nat :: i < Crawl(page, k, count, handle, limit, hash, t).read ==> page(i) == other(i)
    ensures Crawl(other, k, count, handle, limit, hash, t) == Crawl(page, k, count, handle, limit, hash, t)
    decreases count - k
  {
    if k < count {
      var t' := Scan(page(k), handle, limit, hash, t, []).tally;
      CrawlCounts(page, k, count, handle, limit, hash, t);
      assert page(k) == other(k);
      if |t'.texts| < limit {
        CrawlReadsOnly(page, other, k + 1, count, handle, limit, hash, t');
      }
    }
  }

  /** A `TwitterScraper` (lines 13-23), reduced to the state `get_tweets`
      reads and writes. The browser and the API client are not modelled;
      `hash` stands for Python's built-in `hash`, fixed for one run. */
  class TwitterScraper {
    /** The profile handle with its `@` prefix (line 16). */
    const username: string
    const tweetLimit: int
    const scrollCount: int
    const hash: string -> int
    /** `tweet_texts` and `tweet_ids`. */
    var tweetTexts: seq<string>
    var tweetIds: set<int>
    /** How many snapshots were read and how many scroll steps taken. */
    var pagesRead: nat
    var scrolls: nat

    ghost predicate Valid()
      reads this
    {
      Consistent(Tally(tweetTexts, tweetIds), hash)
    }

    ghost function Collected(): Tally
      reads this
    {
      Tally(tweetTexts, tweetIds)
    }

    constructor (handle: string, tweetLimit: int, scrollCount: int, hash: string -> int)
      ensures username == "@" + handle
      ensures this.tweetLimit == tweetLimit && this.scrollCount == scrollCount && this.hash == hash
      ensures tweetTexts == [] && tweetIds == {} && pagesRead == 0 && scrolls == 0
      ensures Valid()
    {
      username := "@" + handle;
      this.tweetLimit := tweetLimit;
      this.scrollCount := scrollCount;
      this.hash := hash;
      tweetTexts := [];
      tweetIds := {};
      pagesRead := 0;
      scrolls := 0;
    }

    /** Lines 42-60, the inner loop of `get_tweets` over one snapshot's
        segments: the buffer starts empty, and the loop leaves the list and
        the id set exactly as the reference scan says. It returns early
        once the limit is reached. */
    method ReadSnapshot(tweets: seq<string>)
      requires Valid()
      modifies this
      ensures Valid()
      ensures Collected() == Scan(tweets, username, tweetLimit, hash, old(Collected()), []).tally
      ensures pagesRead == old(pagesRead) && scrolls == old(scrolls)
    {
      ghost var before := Collected();
      ScanConsistent(tweets, username, tweetLimit, hash, before, []);
      var currentTweet: seq<string> := [];
      var j := 0;
      while j < |tweets|
        invariant 0 <= j <= |tweets|
        invariant Valid()
        invariant forall x :: x in currentTweet ==> x != Dot && x != username
        invariant Scan(tweets[j..], username, tweetLimit, hash, Collected(), currentTweet)
                  == Scan(tweets, username, tweetLimit, hash, before, [])
        invariant pagesRead == old(pagesRead) && scrolls == old(scrolls)
      {
        var text := tweets[j];
        ScanAt(tweets, j, username, tweetLimit, hash, Collected(), currentTweet);
        if text == Dot {
          j := j + 1;
          continue;
        }
        if text == username {
          if currentTweet != [] {
            ghost var seen := Collected();
            RecordConsistent(seen, PostText(currentTweet), hash);
            var fullTweet := Strip(Join(currentTweet, " "));
            var cleanedTweet := Clean(fullTweet);
            var tweetId := hash(cleanedTweet);
            if tweetId !in tweetIds {
              tweetTexts := tweetTexts + [cleanedTweet];
              tweetIds := tweetIds + {tweetId};
            }
            assert Collected() == Record(seen, PostText(currentTweet), hash);
            currentTweet := [];
            if |tweetTexts| >= tweetLimit {
              return;
            }
          }
          j := j + 1;
          continue;
        }
        currentTweet := currentTweet + [text];
        j := j + 1;
      }
    }

    /** `get_tweets` without the browser (lines 36-66): the k-th iteration
        reads `page(k)`, and at most `scrollCount` iterations run. */
    method GetTweets(page: nat -> seq<string>) returns (texts: seq<string>)
      requires Valid()
      modifies this
      ensures Valid()
      ensures var o := Crawl(page, 0, scrollCount, username, tweetLimit, hash, old(Collected()));
        && Collected() == o.tally
        && pagesRead == old(pagesRead) + o.read
        && scrolls == old(scrolls) + o.scrolls
      ensures texts == tweetTexts
      ensures old(tweetTexts) <= tweetTexts
      ensures |old(tweetTexts)| < tweetLimit ==> |tweetTexts| <= tweetLimit
    {
      ghost var start := Collected();
      CrawlInvariants(page, 0, scrollCount, username, tweetLimit, hash, start);
      var k: nat := 0;
      while k < scrollCount
        invariant Valid()
        invariant Crawl(page, k, scrollCount, username, tweetLimit, hash, Collected())
                  == Crawl(page, 0, scrollCount, username, tweetLimit, hash, start)
        invariant pagesRead == old(pagesRead) + k && scrolls == old(scrolls) + k
        decreases scrollCount - k
      {
        var tweets := page(k);
        pagesRead := pagesRead + 1;
        ReadSnapshot(tweets);
        if |tweetTexts| >= tweetLimit {
          break;
        }
        scrolls := scrolls + 1;
        k := k + 1;
      }
      texts := tweetTexts;
    }
  }
}
