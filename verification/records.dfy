/** The records the two browser-side stores keep as JSON, and the list
    operations both stores perform on them: the "not yet stored" filter of
    `saveEmails`, the stamping of new email records and the filter of
    `deleteEmail`. */
module StoredRecords {
  import opened Wrappers
  import opened Seqs

  datatype Author = Author(name: string, title: Option<string>)

  /** `StoredEmail`, declared with the same shape in both storage files. */
  datatype StoredEmail = StoredEmail(email: string, timestamp: int, source: string, phone: Option<string>)

  /** `StoredPost`: a post saved by `savePosts`, also the contact shape the
      send route reads. `author` is None on a record that has no such
      field, as an e-mail record read back from the shared key and posted
      to the route. */
  datatype StoredPost = StoredPost(
    id: string, author: Option<Author>, content: string,
    email: Option<string>, phone: Option<string>, timestamp: int)

  /** One element of a stored JSON array. The store under
      "linkedin_parsed_data" holds both kinds side by side. */
  datatype StoredItem = EmailItem(rec: StoredEmail) | PostItem(post: StoredPost)

  /** The blob under a key: a JSON array of records, or text that
      `JSON.parse` rejects (or that is not an array). */
  datatype Blob = Records(items: seq<StoredItem>) | Unparsable

  /** `item.email`, undefined on a post saved without one. */
  function EmailOf(item: StoredItem): Option<string> {
    match item
    case EmailItem(r) => Some(r.email)
    case PostItem(p) => p.email
  }

  /** `item.id`, undefined on an email record. */
  function IdOf(item: StoredItem): Option<string> {
    match item
    case EmailItem(_) => None
    case PostItem(p) => Some(p.id)
  }

  /** `existingData ? JSON.parse(existingData) : []`: a missing blob reads
      as the empty list, an unparsable one as a thrown error (None). */
  function ParseBlob(blob: Option<Blob>): (r: Option<seq<StoredItem>>)
    ensures blob.None? ==> r == Some([])
    ensures r.None? <==> blob == Some(Unparsable)
  {
    match blob
    case None => Some([])
    case Some(Records(items)) => Some(items)
    case Some(Unparsable) => None
  }

  /** `storedEmails.some((stored) => stored.email === email)`. */
  predicate IsStored(stored: seq<StoredItem>, email: string) {
    exists k :: 0 <= k < |stored| && EmailOf(stored[k]) == Some(email)
  }

  /** The filter of `saveEmails`: the cleaned addresses not yet stored, in
      batch order. Only the stored list is consulted, so an address that
      occurs twice in the batch passes twice. */
  function Unstored(stored: seq<StoredItem>, clean: seq<string>): (r: seq<string>)
    ensures |r| <= |clean|
    ensures forall k :: 0 <= k < |r| ==> !IsStored(stored, r[k])
    decreases |clean|
  {
    if clean == [] then []
    else
      var n := |clean| - 1;
      Unstored(stored, clean[..n]) + (if IsStored(stored, clean[n]) then [] else [clean[n]])
  }

  /** The `.map` of `saveEmails`: one email record per address, the k-th
      stamped with the k-th clock reading. */
  function Stamp(batch: seq<string>, source: string, phone: Option<string>, clock: nat -> int): (r: seq<StoredItem>)
    ensures |r| == |batch|
    ensures forall k :: 0 <= k < |r| ==> EmailOf(r[k]) == Some(batch[k]) && r[k].EmailItem?
  {
    seq(|batch|, k requires 0 <= k < |batch| => EmailItem(StoredEmail(batch[k], clock(k), source, phone)))
  }

  /** The filter of `deleteEmail`: keep every item whose email differs
      (an item without an email always differs). */
  function Without(items: seq<StoredItem>, email: string): (r: seq<StoredItem>)
    ensures |r| <= |items|
    ensures forall k :: 0 <= k < |r| ==> EmailOf(r[k]) != Some(email)
    decreases |items|
  {
    if items == [] then []
    else
      var n := |items| - 1;
      Without(items[..n], email) + (if EmailOf(items[n]) == Some(email) then [] else [items[n]])
  }

  // ---------------------------------------------------------------------
  // Properties of the filters
  // ---------------------------------------------------------------------

  /** An address passes the `saveEmails` filter exactly when it is in the
      batch and not stored, and the filter keeps batch order. */
  lemma {:induction false} UnstoredMembers(stored: seq<StoredItem>, clean: seq<string>)
    ensures forall x :: x in Unstored(stored, clean) <==> x in clean && !IsStored(stored, x)
    ensures IsSubsequence(Unstored(stored, clean), clean)
    decreases |clean|
  {
    if clean != [] {
      var n := |clean| - 1;
      var front := clean[..n];
      UnstoredMembers(stored, front);
      assert clean == front + [clean[n]];
      var pre := Unstored(stored, front);
      if IsStored(stored, clean[n]) {
        assert Unstored(stored, clean) == pre;
        SubsequenceExtend(pre, front, clean[n]);
      } else {
        assert Unstored(stored, clean) == pre + [clean[n]];
        SubsequenceSnoc(pre, front, clean[n]);
      }
    }
  }

  /** An address occurring twice in the batch and not yet stored is
      appended twice. */
  lemma BatchDuplicatePasses(stored: seq<StoredItem>, x: string)
    requires !IsStored(stored, x)
    ensures Unstored(stored, [x, x]) == [x, x]
  {
    assert [x, x][..1] == [x];
    assert [x][..0] == [];
  }

  lemma StoredAfterAppend(stored: seq<StoredItem>, added: seq<StoredItem>, x: string)
    requires IsStored(stored, x) || IsStored(added, x)
    ensures IsStored(stored + added, x)
  {
    if IsStored(stored, x) {
      var k :| 0 <= k < |stored| && EmailOf(stored[k]) == Some(x);
      assert (stored + added)[k] == stored[k];
    } else {
      var k :| 0 <= k < |added| && EmailOf(added[k]) == Some(x);
      assert (stored + added)[|stored| + k] == added[k];
    }
  }

  /** Once the new records are appended, the same batch finds every
      address stored: a second save adds nothing. */
  lemma ResaveFindsAllStored(stored: seq<StoredItem>, clean: seq<string>, source: string, phone: Option<string>, clock: nat -> int)
    ensures var added := Stamp(Unstored(stored, clean), source, phone, clock);
            Unstored(stored + added, clean) == []
  {
    var batch := Unstored(stored, clean);
    var added := Stamp(batch, source, phone, clock);
    UnstoredMembers(stored, clean);
    UnstoredMembers(stored + added, clean);
    forall x | x in clean ensures IsStored(stored + added, x) {
      if !IsStored(stored, x) {
        var k :| 0 <= k < |batch| && batch[k] == x;
        assert EmailOf(added[k]) == Some(x);
        StoredAfterAppend(stored, added, x);
      } else {
        StoredAfterAppend(stored, added, x);
      }
    }
  }

  /** `deleteEmail` keeps every other item, in order, and nothing else. */
  lemma {:induction false} WithoutKeepsOthers(items: seq<StoredItem>, email: string)
    ensures IsSubsequence(Without(items, email), items)
    ensures forall it :: it in Without(items, email) <==> it in items && EmailOf(it) != Some(email)
    decreases |items|
  {
    if items != [] {
      var n := |items| - 1;
      var front := items[..n];
      WithoutKeepsOthers(front, email);
      assert items == front + [items[n]];
      var pre := Without(front, email);
      if EmailOf(items[n]) == Some(email) {
        assert Without(items, email) == pre;
        SubsequenceExtend(pre, front, items[n]);
      } else {
        assert Without(items, email) == pre + [items[n]];
        SubsequenceSnoc(pre, front, items[n]);
      }
    }
  }

  /** Deleting an address nobody has leaves the list as it is. */
  lemma {:induction false} WithoutAbsent(items: seq<StoredItem>, email: string)
    requires !IsStored(items, email)
    ensures Without(items, email) == items
    decreases |items|
  {
    if items != [] {
      var n := |items| - 1;
      WithoutAbsent(items[..n], email);
      assert EmailOf(items[n]) != Some(email);
      assert items == items[..n] + [items[n]];
    }
  }

  /** Deleting twice is deleting once. */
  lemma WithoutIdempotent(items: seq<StoredItem>, email: string)
    ensures Without(Without(items, email), email) == Without(items, email)
  {
    WithoutAbsent(Without(items, email), email);
  }
}
