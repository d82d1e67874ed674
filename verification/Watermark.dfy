/** The watermark over polled pull-request comments (cron/github_cron.py). */
module Watermark {
  import opened Bytes

  datatype Comment = Comment(id: int, htmlUrl: string, login: string, body: string)
  datatype Tagged = Tagged(comment: Comment, tag: string)

  predicate Contains(s: string, part: string) {
    part <= s || (s != [] && Contains(s[1..], part))
  }

  /** The first tag that the body starts with. */
  function MagicTag(tags: seq<string>, body: string): Option<string> {
    if tags == [] then None
    else if tags[0] <= body then Some(tags[0])
    else MagicTag(tags[1..], body)
  }

  datatype Filter = Filter(tags: seq<string>, permittedLogins: seq<string>) {
    /** A comment on a pull request, by a permitted user, with a magic tag. */
    predicate Accepts(c: Comment) {
      Contains(c.htmlUrl, "pull") && c.login in permittedLogins && MagicTag(tags, c.body).Some?
    }

    function Mark(c: Comment): Tagged
      requires Accepts(c)
    {
      Tagged(c, MagicTag(tags, c.body).value)
    }
  }

  /** The comment at i has a greater id than everything before it. */
  predicate IsRecord(low: int, cs: seq<Comment>, i: nat)
    requires i < |cs|
  {
    cs[i].id > low && forall j | 0 <= j < i :: cs[j].id < cs[i].id
  }

  /** The accepted records of a stream, in its order. */
  function Records(f: Filter, low: int, cs: seq<Comment>): seq<Tagged> {
    if cs == [] then []
    else
      var n := |cs| - 1;
      Records(f, low, cs[..n]) + if IsRecord(low, cs, n) && f.Accepts(cs[n]) then [f.Mark(cs[n])] else []
  }

  /** The greatest id so far. */
  function High(low: int, cs: seq<Comment>): int {
    if cs == [] then low
    else
      var h, last := High(low, cs[..|cs| - 1]), cs[|cs| - 1].id;
      if last > h then last else h
  }

  lemma {:induction false} HighIsMaximum(low: int, cs: seq<Comment>)
    ensures High(low, cs) >= low && forall i | 0 <= i < |cs| :: cs[i].id <= High(low, cs)
    ensures High(low, cs) == low || exists i | 0 <= i < |cs| :: cs[i].id == High(low, cs)
    decreases |cs|
  {
    if cs != [] {
      var n := |cs| - 1;
      HighIsMaximum(low, cs[..n]);
      assert High(low, cs[..n]) > low ==> exists i | 0 <= i < n :: cs[..n][i].id == High(low, cs[..n]);
      assert forall i | 0 <= i < n :: cs[i] == cs[..n][i];
    }
  }

  /** One more comment. */
  lemma Next(f: Filter, low: int, cs: seq<Comment>, c: Comment)
    ensures High(low, cs + [c]) == if c.id > High(low, cs) then c.id else High(low, cs)
    ensures Records(f, low, cs + [c]) ==
            Records(f, low, cs) + if c.id > High(low, cs) && f.Accepts(c) then [f.Mark(c)] else []
  {
    var n := |cs|;
    assert (cs + [c])[..n] == cs && (cs + [c])[n] == c;
    HighIsMaximum(low, cs);
    if IsRecord(low, cs + [c], n) {
      assert forall i | 0 <= i < n :: cs[i] == (cs + [c])[i];
    } else if c.id > low {
      var j :| 0 <= j < n && (cs + [c])[j].id >= c.id;
      assert cs[j].id <= High(low, cs);
    }
  }

  /** Two polls return what one poll of both would. */
  lemma {:induction false} PollsJoin(f: Filter, low: int, a: seq<Comment>, b: seq<Comment>)
    ensures High(low, a + b) == High(High(low, a), b)
    ensures Records(f, low, a + b) == Records(f, low, a) + Records(f, High(low, a), b)
    decreases |b|
  {
    if b == [] {
      assert a + b == a;
    } else {
      var some, c := b[..|b| - 1], b[|b| - 1];
      assert b == some + [c] && a + b == a + some + [c];
      PollsJoin(f, low, a, some);
      Next(f, low, a + some, c);
      Next(f, High(low, a), some, c);
    }
  }

  /** The comment at i is returned as t. */
  predicate Picks(f: Filter, low: int, cs: seq<Comment>, i: nat, t: Tagged)
    requires i < |cs|
  {
    IsRecord(low, cs, i) && f.Accepts(cs[i]) && t == f.Mark(cs[i])
  }

  lemma PicksPrefix(f: Filter, low: int, cs: seq<Comment>, n: nat, i: nat, t: Tagged)
    requires i < n <= |cs|
    ensures Picks(f, low, cs[..n], i, t) <==> Picks(f, low, cs, i, t)
  {
    assert forall j | 0 <= j <= i :: cs[..n][j] == cs[j];
  }

  /** A comment is returned exactly if some accepted record of the stream is it. */
  lemma {:induction false} RecordsExact(f: Filter, low: int, cs: seq<Comment>, t: Tagged)
    ensures t in Records(f, low, cs) <==> exists i | 0 <= i < |cs| :: Picks(f, low, cs, i, t)
    decreases |cs|
  {
    if cs != [] {
      var n := |cs| - 1;
      RecordsExact(f, low, cs[..n], t);
      forall i | 0 <= i < n ensures Picks(f, low, cs[..n], i, t) <==> Picks(f, low, cs, i, t) {
        PicksPrefix(f, low, cs, n, i, t);
      }
      assert t in Records(f, low, cs) <==> t in Records(f, low, cs[..n]) || Picks(f, low, cs, n, t);
    }
  }

  /** The returned ids increase strictly: no comment is scheduled twice. */
  lemma {:induction false} NoCommentTwice(f: Filter, low: int, cs: seq<Comment>)
    ensures forall i, j | 0 <= i < j < |Records(f, low, cs)| ::
              Records(f, low, cs)[i].comment.id < Records(f, low, cs)[j].comment.id
    decreases |cs|
  {
    if cs != [] {
      var n := |cs| - 1;
      NoCommentTwice(f, low, cs[..n]);
      var before := Records(f, low, cs[..n]);
      forall i | 0 <= i < |before| && IsRecord(low, cs, n) ensures before[i].comment.id < cs[n].id {
        RecordsExact(f, low, cs[..n], before[i]);
        var k :| 0 <= k < n && Picks(f, low, cs[..n], k, before[i]);
        assert cs[..n][k] == cs[k];
      }
    }
  }

  /** The comment at i is the first with its id. */
  predicate IsFirst(cs: seq<Comment>, i: nat)
    requires i < |cs|
  {
    forall j | 0 <= j < i :: cs[j].id != cs[i].id
  }

  predicate Returned(f: Filter, cs: seq<Comment>, i: nat)
    requires i < |cs|
  {
    exists t <- Records(f, 0, cs) :: t.comment == cs[i]
  }

  /**
   The comments come sorted by their last update, not by their ids. An accepted comment is returned when it
   first appears exactly if no comment with a greater id appeared before it.
   */
  lemma MissedExactly(f: Filter, cs: seq<Comment>, i: nat)
    requires i < |cs| && f.Accepts(cs[i]) && cs[i].id > 0 && IsFirst(cs, i)
    ensures Returned(f, cs, i) <==> forall j | 0 <= j < i :: cs[j].id < cs[i].id
  {
    if IsRecord(0, cs, i) {
      assert Picks(f, 0, cs, i, f.Mark(cs[i]));
      RecordsExact(f, 0, cs, f.Mark(cs[i]));
    } else {
      forall t <- Records(f, 0, cs) ensures t.comment != cs[i] {
        RecordsExact(f, 0, cs, t);
        var k :| 0 <= k < |cs| && Picks(f, 0, cs, k, t);
        assert k != i && (k < i ==> cs[k].id != cs[i].id) && (i < k ==> cs[i].id < cs[k].id);
      }
    }
  }

  /**
   Of two comments that both pass the filters, updated in the other order than written, the second is
   never returned.
   */
  lemma EarlierCommentIsMissed()
    ensures exists f: Filter, cs: seq<Comment> ::
              |cs| == 2 && cs[0].id == 2 && cs[1].id == 1 && f.Accepts(cs[0]) && f.Accepts(cs[1])
              && Returned(f, cs, 0) && !Returned(f, cs, 1)
  {
    var f := Filter(["#"], ["a"]);
    var cs := [Comment(2, "pull", "a", "#"), Comment(1, "pull", "a", "#")];
    assert MagicTag(["#"], "#") == Some("#");
    assert f.Accepts(cs[0]) && f.Accepts(cs[1]);
    MissedExactly(f, cs, 0);
    MissedExactly(f, cs, 1);
  }

  class GithubCron {
    const filter: Filter
    var lastCommentId: int
    var pullTimeOffset: int
    ghost var stream: seq<Comment>    // all comments of the polls since the last reset
    ghost var returned: seq<Tagged>   // all that those polls returned

    /** Over any number of polls: what was returned are the accepted records of the whole stream. */
    ghost predicate Valid()
      reads this
    {
      lastCommentId == High(0, stream) && returned == Records(filter, 0, stream)
    }

    constructor (filter: Filter, pullTimeOffset: int)
      ensures Valid() && stream == [] && this.filter == filter && this.pullTimeOffset == pullTimeOffset
    {
      this.filter, this.pullTimeOffset := filter, pullTimeOffset;
      lastCommentId, stream, returned := 0, [], [];
    }

    /** The loop over the tags. */
    method FindTag(body: string) returns (tag: Option<string>)
      ensures tag == MagicTag(filter.tags, body)
    {
      ghost var all := MagicTag(filter.tags, body);
      for i := 0 to |filter.tags|
        invariant all == MagicTag(filter.tags[i..], body)
      {
        if filter.tags[i] <= body {
          return Some(filter.tags[i]);
        }
        assert filter.tags[i..][1..] == filter.tags[i + 1..];
      }
      return None;
    }

    /** `get_pr_comments_with_magic_tag`, given what the request answers. */
    method GetPrCommentsWithMagicTag(comments: seq<Comment>) returns (tagged: seq<Tagged>)
      requires Valid()
      modifies this`lastCommentId, this`stream, this`returned
      ensures Valid() && stream == old(stream) + comments && returned == old(returned) + tagged
      ensures tagged == Records(filter, old(lastCommentId), comments)
    {
      tagged := [];
      for i := 0 to |comments|
        modifies this`lastCommentId
        invariant tagged == Records(filter, old(lastCommentId), comments[..i])
        invariant lastCommentId == High(old(lastCommentId), comments[..i])
      {
        var comment := comments[i];
        assert comments[..i + 1] == comments[..i] + [comment];
        Next(filter, old(lastCommentId), comments[..i], comment);
        if comment.id <= lastCommentId {
          continue;
        }
        lastCommentId := comment.id;
        if !Contains(comment.htmlUrl, "pull") {
          continue;
        }
        if comment.login !in filter.permittedLogins {
          continue;
        }
        var tag := FindTag(comment.body);
        if tag.None? {
          continue;
        }
        tagged := tagged + [Tagged(comment, tag.value)];
      }
      assert comments[..|comments|] == comments;
      PollsJoin(filter, 0, stream, comments);
      stream, returned := stream + comments, returned + tagged;
    }

    /** `set_pull_time_offset`: forgets what was seen, so that comments may come again. */
    method SetPullTimeOffset(offset: int)
      modifies this
      ensures Valid() && stream == [] && pullTimeOffset == offset && lastCommentId == 0
    {
      pullTimeOffset, lastCommentId := offset, 0;
      stream, returned := [], [];
    }
  }

  /** `part in s`. */
  lemma {:induction false} ContainsExactly(s: string, part: string)
    ensures Contains(s, part) <==> exists before, after :: s == before + part + after
  {
    if part <= s {
      assert s == [] + part + s[|part|..];
    } else if s != [] {
      ContainsExactly(s[1..], part);
      if Contains(s, part) {
        var before, after :| s[1..] == before + part + after;
        assert s == ([s[0]] + before) + part + after;
      }
      if before, after :| s == before + part + after {
        assert before != [] by {
          assert [] + part + after == part + after;
        }
        assert s[1..] == before[1..] + part + after;
      }
    } else {
      assert |part| > 0 && forall before, after :: |before + part + after| > 0;
    }
  }

  /** The tag is the first in the list that the body starts with. */
  lemma {:induction false} MagicTagExactly(tags: seq<string>, body: string)
    ensures MagicTag(tags, body).None? <==> forall t <- tags :: !(t <= body)
    ensures MagicTag(tags, body).Some? ==>
              exists k | 0 <= k < |tags| ::
                MagicTag(tags, body).value == tags[k] <= body && forall j | 0 <= j < k :: !(tags[j] <= body)
  {
    if tags != [] {
      assert tags[0] in tags;
    }
    if tags != [] && !(tags[0] <= body) {
      MagicTagExactly(tags[1..], body);
      assert forall t :: t in tags <==> t == tags[0] || t in tags[1..];
      if MagicTag(tags, body).Some? {
        var k :| 0 <= k < |tags[1..]| && MagicTag(tags[1..], body).value == tags[1..][k] <= body
          && forall j | 0 <= j < k :: !(tags[1..][j] <= body);
        forall j | 0 <= j < k + 1 ensures !(tags[j] <= body) {
          assert j > 0 ==> tags[j] == tags[1..][j - 1];
        }
        assert tags[k + 1] == tags[1..][k];
      }
    }
  }

  /** What the filter accepts: a pull request's comment, by a permitted user, that starts with a tag. */
  lemma AcceptsExactly(f: Filter, c: Comment)
    ensures f.Accepts(c) <==>
            && (exists before, after :: c.htmlUrl == before + "pull" + after)
            && c.login in f.permittedLogins
            && exists t <- f.tags :: t <= c.body
  {
    ContainsExactly(c.htmlUrl, "pull");
    MagicTagExactly(f.tags, c.body);
  }
}
