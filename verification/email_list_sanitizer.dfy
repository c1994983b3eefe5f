/** `sanitizeEmailList`: one contact per email address, the first post
    that carries it, in the order the addresses were first seen. Posts
    without an address (or with the empty one) are dropped. */
module EmailListSanitizer {
  import opened Wrappers
  import opened Seqs
  import opened StoredRecords

  /** `post.email` is truthy. */
  predicate HasEmail(p: StoredPost) {
    p.email.Some? && p.email.value != ""
  }

  /** Some post of `list` carries the address `e`. */
  predicate EmailSeen(list: seq<StoredPost>, e: string) {
    exists k :: 0 <= k < |list| && list[k].email == Some(e)
  }

  /** No two posts of `list` carry the same address. */
  predicate DistinctEmails(list: seq<StoredPost>) {
    forall i, j :: 0 <= i < j < |list| ==> list[i].email != list[j].email
  }

  /** The contacts, as a function of the posts: a post is kept when it has
      an address that no kept post before it has. */
  function FirstPerEmail(posts: seq<StoredPost>): (r: seq<StoredPost>)
    ensures |r| <= |posts|
    ensures forall k :: 0 <= k < |r| ==> HasEmail(r[k])
    decreases |posts|
  {
    if posts == [] then []
    else
      var n := |posts| - 1;
      var pre := FirstPerEmail(posts[..n]);
      var p := posts[n];
      if HasEmail(p) && !EmailSeen(pre, p.email.value) then pre + [p] else pre
  }

  /** The contacts a map and its insertion order describe. */
  ghost function MapValues(emailMap: map<string, StoredPost>, order: seq<string>): seq<StoredPost>
    requires forall k :: 0 <= k < |order| ==> order[k] in emailMap
  {
    seq(|order|, k requires 0 <= k < |order| => emailMap[order[k]])
  }

  /** `sanitizeEmailList(posts)`: fill a `Map` from address to post,
      inserting only addresses not yet present, then return its values in
      insertion order. */
  method SanitizeEmailList(posts: seq<StoredPost>) returns (unique: seq<StoredPost>)
    ensures unique == FirstPerEmail(posts)
  {
    var emailMap: map<string, StoredPost> := map[];
    var order: seq<string> := [];
    for i := 0 to |posts|
      invariant forall e :: e in emailMap <==> e in order
      invariant forall k :: 0 <= k < |order| ==> order[k] in emailMap && emailMap[order[k]].email == Some(order[k])
      invariant MapValues(emailMap, order) == FirstPerEmail(posts[..i])
    {
      assert posts[..i + 1][..i] == posts[..i];
      var post := posts[i];
      ghost var pre := FirstPerEmail(posts[..i]);
      assert forall e :: e in emailMap <==> EmailSeen(pre, e) by {
        forall e ensures e in emailMap <==> EmailSeen(pre, e) {
          if e in emailMap {
            var k :| 0 <= k < |order| && order[k] == e;
            assert pre[k] == emailMap[order[k]];
          }
          if EmailSeen(pre, e) {
            var k :| 0 <= k < |pre| && pre[k].email == Some(e);
            assert pre[k] == emailMap[order[k]];
          }
        }
      }
      if post.email.Some? && post.email.value != "" && post.email.value !in emailMap {
        emailMap := emailMap[post.email.value := post];
        order := order + [post.email.value];
        assert MapValues(emailMap, order) == pre + [post];
      }
    }
    assert posts[..|posts|] == posts;
    unique := seq(|order|, k requires 0 <= k < |order| => emailMap[order[k]]);
  }

  // ---------------------------------------------------------------------
  // Properties
  // ---------------------------------------------------------------------

  /** The contacts carry pairwise different addresses, and a post is
      represented exactly when it has an address: every address of the
      input occurs among the contacts and no other does. */
  lemma {:induction false} FirstPerEmailContents(posts: seq<StoredPost>)
    ensures DistinctEmails(FirstPerEmail(posts))
    ensures forall e :: EmailSeen(FirstPerEmail(posts), e) <==>
              e != "" && EmailSeen(posts, e)
    decreases |posts|
  {
    if posts != [] {
      var n := |posts| - 1;
      var front := posts[..n];
      var pre := FirstPerEmail(front);
      FirstPerEmailContents(front);
      var p := posts[n];
      var r := FirstPerEmail(posts);
      forall e ensures EmailSeen(r, e) <==> e != "" && EmailSeen(posts, e) {
        if EmailSeen(posts, e) && e != "" {
          var k :| 0 <= k < |posts| && posts[k].email == Some(e);
          if k < n {
            assert front[k].email == Some(e);
            assert EmailSeen(front, e);
            var j :| 0 <= j < |pre| && pre[j].email == Some(e);
            assert r[j] == pre[j];
          } else if !EmailSeen(pre, e) {
            assert r[|pre|] == p;
          } else {
            var j :| 0 <= j < |pre| && pre[j].email == Some(e);
            assert r[j] == pre[j];
          }
        }
        if EmailSeen(r, e) {
          var j :| 0 <= j < |r| && r[j].email == Some(e);
          assert HasEmail(r[j]);
          if j < |pre| {
            assert r[j] == pre[j];
            assert EmailSeen(pre, e);
            var k :| 0 <= k < |front| && front[k].email == Some(e);
            assert posts[k] == front[k];
          } else {
            assert r[j] == p;
          }
        }
      }
      forall i, j | 0 <= i < j < |r| ensures r[i].email != r[j].email {
        if j < |pre| {
          assert r[i] == pre[i] && r[j] == pre[j];
        } else {
          assert r == pre + [p] && HasEmail(p) && !EmailSeen(pre, p.email.value);
          assert r[i] == pre[i] && r[j] == p;
          assert pre[i].email != Some(p.email.value);
        }
      }
    }
  }

  /** The contacts are some of the posts, in their original order. */
  lemma {:induction false} FirstPerEmailSubsequence(posts: seq<StoredPost>)
    ensures IsSubsequence(FirstPerEmail(posts), posts)
    decreases |posts|
  {
    if posts != [] {
      var n := |posts| - 1;
      var front := posts[..n];
      FirstPerEmailSubsequence(front);
      assert posts == front + [posts[n]];
      if FirstPerEmail(posts) == FirstPerEmail(front) {
        SubsequenceExtend(FirstPerEmail(front), front, posts[n]);
      } else {
        SubsequenceSnoc(FirstPerEmail(front), front, posts[n]);
      }
    }
  }

  /** `posts[j]` is `p`, and no earlier post has its address. */
  predicate FirstAt(posts: seq<StoredPost>, j: int, p: StoredPost) {
    0 <= j < |posts| && posts[j] == p &&
    forall i :: 0 <= i < j ==> posts[i].email != p.email
  }

  /** `p` is the first post of `posts` with its address. */
  predicate IsFirst(posts: seq<StoredPost>, p: StoredPost) {
    exists j :: 0 <= j < |posts| && FirstAt(posts, j, p)
  }

  /** Every post of `r` is the first post of `posts` with its address. */
  predicate AllFirst(posts: seq<StoredPost>, r: seq<StoredPost>) {
    forall k :: 0 <= k < |r| ==> IsFirst(posts, r[k])
  }

  /** Each contact is the first post that carries its address. */
  lemma {:induction false} FirstPerEmailKeepsFirst(posts: seq<StoredPost>)
    ensures AllFirst(posts, FirstPerEmail(posts))
    decreases |posts|
  {
    if posts != [] {
      var n := |posts| - 1;
      var front := posts[..n];
      var pre := FirstPerEmail(front);
      FirstPerEmailKeepsFirst(front);
      FirstPerEmailContents(front);
      var r := FirstPerEmail(posts);
      forall k | 0 <= k < |r| ensures IsFirst(posts, r[k]) {
        if k < |pre| {
          assert r[k] == pre[k];
          assert IsFirst(front, pre[k]);
          var j :| 0 <= j < |front| && FirstAt(front, j, pre[k]);
          assert posts[j] == front[j];
          forall i | 0 <= i < j ensures posts[i].email != r[k].email {
            assert posts[i] == front[i];
          }
          assert FirstAt(posts, j, r[k]);
        } else {
          var p := posts[n];
          assert r == pre + [p] && HasEmail(p) && !EmailSeen(pre, p.email.value);
          assert r[k] == p;
          assert !EmailSeen(front, p.email.value);
          forall i | 0 <= i < n ensures posts[i].email != p.email {
            assert posts[i] == front[i];
            assert front[i].email != Some(p.email.value);
          }
          assert FirstAt(posts, n, r[k]);
        }
      }
      assert AllFirst(posts, r);
    } else {
      assert FirstPerEmail(posts) == [];
    }
  }

  /** A list whose posts all have addresses, pairwise different, is left
      as it is; so sanitising twice is sanitising once. */
  lemma {:induction false} FirstPerEmailFixpoint(posts: seq<StoredPost>)
    requires forall k :: 0 <= k < |posts| ==> HasEmail(posts[k])
    requires DistinctEmails(posts)
    ensures FirstPerEmail(posts) == posts
    decreases |posts|
  {
    if posts != [] {
      var n := |posts| - 1;
      var front := posts[..n];
      FirstPerEmailFixpoint(front);
      assert !EmailSeen(front, posts[n].email.value);
      assert posts == front + [posts[n]];
    }
  }

  lemma SanitizeIdempotent(posts: seq<StoredPost>)
    ensures FirstPerEmail(FirstPerEmail(posts)) == FirstPerEmail(posts)
  {
    FirstPerEmailContents(posts);
    FirstPerEmailFixpoint(FirstPerEmail(posts));
  }

  /** Two posts with the same address: the second is dropped, whatever
      else it carries. */
  lemma SecondPostWithSameEmailDropped(p: StoredPost, q: StoredPost)
    requires HasEmail(p) && q.email == p.email
    ensures FirstPerEmail([p, q]) == [p]
  {
    assert [p, q][..1] == [p];
    assert [p][..0] == [];
    assert FirstPerEmail([p]) == [p];
    assert EmailSeen([p], q.email.value);
  }
}
