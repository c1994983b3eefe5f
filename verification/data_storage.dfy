/** The record store of `src/helpers`: `storageHelper` over the key
    "linkedin_parsed_data". The email operations are the shared
    read-modify-write of `EmailStore` under this key; `savePosts` and
    `getStoredPosts` use the same key, so email records and post records
    live in one array and each operation sees the other's records. */
module DataStorage {
  import opened Wrappers
  import opened Seqs
  import opened StoredRecords
  import opened BrowserStorage
  import opened EmailStore
  import opened EmailValidation
  import ContentFetch

  const StorageKey := "linkedin_parsed_data"

  // ---------------------------------------------------------------------
  // The email operations under this key
  // ---------------------------------------------------------------------

  /** `saveEmails(emails, source, phone)`. */
  method SaveEmails(store: LocalStorage, emails: seq<string>, source: string, phone: Option<string>, clock: nat -> int)
    returns (added: nat)
    modifies store`blobs
    ensures var o := SaveEmailsOutcome(StorageKey, old(store.blobs), store.available, store.quotaExceeded,
                                       emails, source, phone, clock);
            added == o.added && store.blobs == o.blobs
  {
    added := SaveEmailsAt(store, StorageKey, emails, source, phone, clock);
  }

  /** `getStoredEmails()`: every record under the key, posts included. */
  method GetStoredEmails(store: LocalStorage) returns (items: seq<StoredItem>)
    ensures items == StoredOrEmpty(StorageKey, store.blobs, store.available)
  {
    items := ReadAt(store, StorageKey);
  }

  /** `clearStoredEmails()`: removes the posts as well. */
  method ClearStoredEmails(store: LocalStorage) returns (ok: bool)
    modifies store`blobs
    ensures var o := ClearOutcome(StorageKey, old(store.blobs), store.available);
            ok == o.ok && store.blobs == o.blobs
  {
    ok := ClearAt(store, StorageKey);
  }

  /** `deleteEmail(email)`: also drops every post saved with that email. */
  method DeleteEmail(store: LocalStorage, email: string) returns (ok: bool)
    modifies store`blobs
    ensures var o := DeleteEmailOutcome(StorageKey, old(store.blobs), store.available, store.quotaExceeded, email);
            ok == o.ok && store.blobs == o.blobs
  {
    ok := DeleteEmailAt(store, StorageKey, email);
  }

  // ---------------------------------------------------------------------
  // savePosts and getStoredPosts
  // ---------------------------------------------------------------------

  /** The `.map` of `savePosts` for one post: the first email and the first
      phone (undefined when the list is empty), stamped with a clock
      reading. */
  function ToStoredPost(post: ContentFetch.LinkedInPost, timestamp: int): StoredPost {
    StoredPost(post.id, Some(Author(post.author.name, post.author.title)), post.content,
               First(post.emails), First(post.phones), timestamp)
  }

  /** `newPosts`: one record per input post, the k-th stamped with the k-th
      clock reading. */
  function NewPosts(posts: seq<ContentFetch.LinkedInPost>, clock: nat -> int): (r: seq<StoredPost>)
    ensures |r| == |posts|
  {
    seq(|posts|, k requires 0 <= k < |posts| => ToStoredPost(posts[k], clock(k)))
  }

  /** `storedPosts.some((stored) => stored.id === id)`; an email record
      has no id and never matches. */
  predicate HasId(stored: seq<StoredItem>, id: string) {
    exists k :: 0 <= k < |stored| && IdOf(stored[k]) == Some(id)
  }

  /** The filter of `savePosts`: the new records whose id is not stored, in
      input order. Only the stored list is consulted, so two new posts with
      the same id both pass. */
  function UnstoredPosts(stored: seq<StoredItem>, newPosts: seq<StoredPost>): (r: seq<StoredItem>)
    ensures |r| <= |newPosts|
    ensures forall k :: 0 <= k < |r| ==> r[k].PostItem? && !HasId(stored, r[k].post.id)
    decreases |newPosts|
  {
    if newPosts == [] then []
    else
      var n := |newPosts| - 1;
      UnstoredPosts(stored, newPosts[..n]) +
        (if HasId(stored, newPosts[n].id) then [] else [PostItem(newPosts[n])])
  }

  /** `savePosts(posts)`: read and parse the blob, append the records whose
      id is not stored, write back and return `posts.length` (not the
      number appended). Any throw returns 0. */
  function SavePostsOutcome(
    key: string, blobs: map<string, Blob>, available: bool, quotaExceeded: bool,
    posts: seq<ContentFetch.LinkedInPost>, clock: nat -> int): (r: SaveOutcome)
    ensures OnlyKeyChanged(blobs, r.blobs, key)
    ensures available && !quotaExceeded && Lookup(blobs, key) != Some(Unparsable) ==> r.added == |posts|
    ensures !available || quotaExceeded || Lookup(blobs, key) == Some(Unparsable) ==> r == SaveOutcome(0, blobs)
  {
    if !available then SaveOutcome(0, blobs)
    else match ParseBlob(Lookup(blobs, key))
      case None => SaveOutcome(0, blobs)
      case Some(stored) =>
        var newPosts := NewPosts(posts, clock);
        if quotaExceeded then SaveOutcome(0, blobs)
        else SaveOutcome(|newPosts|, blobs[key := Records(stored + UnstoredPosts(stored, newPosts))])
  }

  /** `savePosts(posts)`, run against the storage object. */
  method SavePosts(store: LocalStorage, posts: seq<ContentFetch.LinkedInPost>, clock: nat -> int)
    returns (count: nat)
    modifies store`blobs
    ensures var o := SavePostsOutcome(StorageKey, old(store.blobs), store.available, store.quotaExceeded, posts, clock);
            count == o.added && store.blobs == o.blobs
  {
    var existing, ok := store.GetItem(StorageKey);
    if !ok {
      return 0;
    }
    match ParseBlob(existing) {
      case None =>
        count := 0;
      case Some(storedPosts) =>
        var newPosts := NewPosts(posts, clock);
        var written := store.SetItem(StorageKey, storedPosts + UnstoredPosts(storedPosts, newPosts));
        count := if written then |newPosts| else 0;
    }
  }

  /** `getStoredPosts()`: the same read as `getStoredEmails`, so it returns
      the email records as well. */
  method GetStoredPosts(store: LocalStorage) returns (items: seq<StoredItem>)
    ensures items == StoredOrEmpty(StorageKey, store.blobs, store.available)
  {
    items := ReadAt(store, StorageKey);
  }

  // ---------------------------------------------------------------------
  // Properties of savePosts
  // ---------------------------------------------------------------------

  /** Each record carries the post's id, author, content, the first email
      and first phone (none for an empty list) and its own clock reading. */
  lemma NewPostsEntries(posts: seq<ContentFetch.LinkedInPost>, clock: nat -> int)
    ensures var r := NewPosts(posts, clock);
            forall k :: 0 <= k < |r| ==>
              && r[k].id == posts[k].id && r[k].content == posts[k].content
              && r[k].author == Some(Author(posts[k].author.name, posts[k].author.title))
              && r[k].email == (if posts[k].emails == [] then None else Some(posts[k].emails[0]))
              && r[k].phone == (if posts[k].phones == [] then None else Some(posts[k].phones[0]))
              && r[k].timestamp == clock(k)
  {
    var r := NewPosts(posts, clock);
    forall k | 0 <= k < |r| ensures r[k] == ToStoredPost(posts[k], clock(k)) {
    }
  }

  /** A record passes the filter exactly when it is one of the new records
      and its id is not stored; the filter keeps input order. */
  lemma {:induction false} UnstoredPostsMembers(stored: seq<StoredItem>, newPosts: seq<StoredPost>)
    ensures forall p :: PostItem(p) in UnstoredPosts(stored, newPosts) <==> p in newPosts && !HasId(stored, p.id)
    ensures IsSubsequence(UnstoredPosts(stored, newPosts), seq(|newPosts|, k requires 0 <= k < |newPosts| => PostItem(newPosts[k])))
    decreases |newPosts|
  {
    var items := seq(|newPosts|, k requires 0 <= k < |newPosts| => PostItem(newPosts[k]));
    if newPosts != [] {
      var n := |newPosts| - 1;
      var front := newPosts[..n];
      UnstoredPostsMembers(stored, front);
      var frontItems := seq(|front|, k requires 0 <= k < |front| => PostItem(front[k]));
      assert items == frontItems + [PostItem(newPosts[n])];
      assert newPosts == front + [newPosts[n]];
      var pre := UnstoredPosts(stored, front);
      if HasId(stored, newPosts[n].id) {
        assert UnstoredPosts(stored, newPosts) == pre;
        SubsequenceExtend(pre, frontItems, PostItem(newPosts[n]));
      } else {
        assert UnstoredPosts(stored, newPosts) == pre + [PostItem(newPosts[n])];
        SubsequenceSnoc(pre, frontItems, PostItem(newPosts[n]));
      }
    } else {
      assert items == [];
    }
  }

  /** A successful save keeps the stored list as a prefix, appends only
      records of the given posts whose id was not stored, and returns the
      number of posts given. */
  lemma SavePostsAppendsNewIds(
    key: string, blobs: map<string, Blob>, posts: seq<ContentFetch.LinkedInPost>, clock: nat -> int,
    stored: seq<StoredItem>)
    requires ParseBlob(Lookup(blobs, key)) == Some(stored)
    ensures var r := SavePostsOutcome(key, blobs, true, false, posts, clock);
            && r.added == |posts|
            && key in r.blobs && r.blobs[key].Records?
            && var items := r.blobs[key].items;
            && items[..|stored|] == stored
            && forall k :: |stored| <= k < |items| ==>
                 items[k].PostItem? && items[k].post in NewPosts(posts, clock) && !HasId(stored, items[k].post.id)
  {
    var newPosts := NewPosts(posts, clock);
    var added := UnstoredPosts(stored, newPosts);
    var items := stored + added;
    UnstoredPostsMembers(stored, newPosts);
    forall k | |stored| <= k < |items|
      ensures items[k].PostItem? && items[k].post in newPosts && !HasId(stored, items[k].post.id)
    {
      assert items[k] == added[k - |stored|];
      assert added[k - |stored|] in added;
    }
    assert items[..|stored|] == stored;
  }

  lemma HasIdAfterAppend(stored: seq<StoredItem>, added: seq<StoredItem>, id: string)
    requires HasId(stored, id) || HasId(added, id)
    ensures HasId(stored + added, id)
  {
    if HasId(stored, id) {
      var k :| 0 <= k < |stored| && IdOf(stored[k]) == Some(id);
      assert (stored + added)[k] == stored[k];
    } else {
      var k :| 0 <= k < |added| && IdOf(added[k]) == Some(id);
      assert (stored + added)[|stored| + k] == added[k];
    }
  }

  /** When every id of the batch is stored, nothing passes the filter. */
  lemma AllIdsStoredPassNothing(stored: seq<StoredItem>, newPosts: seq<StoredPost>)
    requires forall k :: 0 <= k < |newPosts| ==> HasId(stored, newPosts[k].id)
    ensures UnstoredPosts(stored, newPosts) == []
  {
    UnstoredPostsMembers(stored, newPosts);
  }

  /** Saving the same posts again right after a save appends nothing (the
      blob is written back unchanged) and still returns `posts.length`. */
  lemma SavePostsTwiceAppendsNothing(
    key: string, blobs: map<string, Blob>, posts: seq<ContentFetch.LinkedInPost>,
    clock: nat -> int, clock2: nat -> int)
    requires Lookup(blobs, key) != Some(Unparsable)
    ensures var first := SavePostsOutcome(key, blobs, true, false, posts, clock);
            var second := SavePostsOutcome(key, first.blobs, true, false, posts, clock2);
            second.added == |posts| && second.blobs == first.blobs
  {
    var stored :| ParseBlob(Lookup(blobs, key)) == Some(stored);
    var newPosts := NewPosts(posts, clock);
    var added := UnstoredPosts(stored, newPosts);
    var items := stored + added;
    var newPosts2 := NewPosts(posts, clock2);
    UnstoredPostsMembers(stored, newPosts);
    forall k | 0 <= k < |newPosts2| ensures HasId(items, newPosts2[k].id) {
      assert newPosts2[k] == ToStoredPost(posts[k], clock2(k));
      assert newPosts[k] == ToStoredPost(posts[k], clock(k));
      if !HasId(stored, newPosts[k].id) {
        assert newPosts[k] in newPosts;
        var j :| 0 <= j < |added| && added[j] == PostItem(newPosts[k]);
        assert IdOf(added[j]) == Some(newPosts[k].id);
      }
      HasIdAfterAppend(stored, added, newPosts[k].id);
    }
    AllIdsStoredPassNothing(items, newPosts2);
    assert items + [] == items;
  }

  /** Ids are not de-duplicated within a batch: two posts with the same
      unstored id are both appended. */
  lemma SavePostsKeepsBatchDuplicateIds(
    key: string, blobs: map<string, Blob>, p: ContentFetch.LinkedInPost, q: ContentFetch.LinkedInPost,
    clock: nat -> int, stored: seq<StoredItem>)
    requires ParseBlob(Lookup(blobs, key)) == Some(stored)
    requires p.id == q.id && !HasId(stored, p.id)
    ensures var r := SavePostsOutcome(key, blobs, true, false, [p, q], clock);
            r.blobs[key] == Records(stored + [PostItem(ToStoredPost(p, clock(0))), PostItem(ToStoredPost(q, clock(1)))])
  {
    var newPosts := NewPosts([p, q], clock);
    assert newPosts == [ToStoredPost(p, clock(0)), ToStoredPost(q, clock(1))];
    assert newPosts[..1][..0] == [];
    assert newPosts[..1] == [ToStoredPost(p, clock(0))];
    assert newPosts[0].id == p.id && newPosts[1].id == p.id;
    assert UnstoredPosts(stored, newPosts[..1]) == [PostItem(newPosts[0])];
    assert UnstoredPosts(stored, newPosts) == [PostItem(newPosts[0]), PostItem(newPosts[1])];
  }

  /** Emails and posts share the key: once a post with first email `x` is
      saved, `saveEmails` finds `x` stored and does not append it. */
  lemma SavedPostBlocksItsEmail(
    blobs: map<string, Blob>, post: ContentFetch.LinkedInPost, clock: nat -> int,
    e: string, x: string, source: string, phone: Option<string>, clock2: nat -> int, stored: seq<StoredItem>)
    requires ParseBlob(Lookup(blobs, StorageKey)) == Some(stored)
    requires !HasId(stored, post.id)
    requires post.emails != [] && post.emails[0] == x
    requires ValidateAndCleanEmail(e) == Some(x)
    ensures var saved := SavePostsOutcome(StorageKey, blobs, true, false, [post], clock);
            SaveEmailsOutcome(StorageKey, saved.blobs, true, false, [e], source, phone, clock2).added == 0
  {
    var newPosts := NewPosts([post], clock);
    var record := ToStoredPost(post, clock(0));
    assert newPosts == [record];
    assert newPosts[..0] == [];
    var items := stored + [PostItem(record)];
    assert items[|stored|] == PostItem(record);
    assert EmailOf(items[|stored|]) == Some(x);
    assert IsStored(items, x);
    var saved := SavePostsOutcome(StorageKey, blobs, true, false, [post], clock);
    assert saved.blobs[StorageKey] == Records(items);
    SaveEmailsSkipsStored(StorageKey, saved.blobs, e, x, source, phone, clock2, items);
  }
}
