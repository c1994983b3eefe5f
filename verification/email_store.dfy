/** The read-modify-write that both storage helpers perform on the blob
    under their key, as functions of the storage state before the call:
    what the call returns and what the blobs are afterwards. The two
    helper modules run these steps against a `LocalStorage` object and
    are proved to end in exactly these outcomes. */
module EmailStore {
  import opened Wrappers
  import opened Seqs
  import opened StoredRecords
  import opened EmailValidation
  import opened BrowserStorage

  /** The number a save returns and the blobs it leaves. */
  datatype SaveOutcome = SaveOutcome(added: nat, blobs: map<string, Blob>)

  /** The flag a clear or delete returns and the blobs it leaves. */
  datatype FlagOutcome = FlagOutcome(ok: bool, blobs: map<string, Blob>)

  function Lookup(blobs: map<string, Blob>, key: string): Option<Blob> {
    if key in blobs then Some(blobs[key]) else None
  }

  /** No key other than `key` is added, removed or changed. */
  ghost predicate OnlyKeyChanged(before: map<string, Blob>, after: map<string, Blob>, key: string) {
    forall k :: k != key ==> (k in after <==> k in before) && (k in after ==> after[k] == before[k])
  }

  /** `getStoredEmails` (and `getStoredPosts`): the parsed list, or [] when
      storage throws, the key is absent or the blob does not parse. */
  function StoredOrEmpty(key: string, blobs: map<string, Blob>, available: bool): (r: seq<StoredItem>)
    ensures available && key in blobs && blobs[key].Records? ==> r == blobs[key].items
    ensures !available || key !in blobs || blobs[key].Unparsable? ==> r == []
  {
    if !available then []
    else match ParseBlob(Lookup(blobs, key))
      case None => []
      case Some(items) => items
  }

  /** `saveEmails(emails, source, phone)`: validate and clean the batch,
      read and parse the blob, append a record for every cleaned address
      not already stored, write the blob back and return how many were
      appended. Any throw returns 0. */
  function SaveEmailsOutcome(
    key: string, blobs: map<string, Blob>, available: bool, quotaExceeded: bool,
    emails: seq<string>, source: string, phone: Option<string>, clock: nat -> int): (r: SaveOutcome)
    ensures OnlyKeyChanged(blobs, r.blobs, key)
    ensures !available || quotaExceeded || Lookup(blobs, key) == Some(Unparsable) ==> r == SaveOutcome(0, blobs)
  {
    var clean := CleanedEmails(emails);
    if !available then SaveOutcome(0, blobs)
    else match ParseBlob(Lookup(blobs, key))
      case None => SaveOutcome(0, blobs)
      case Some(stored) =>
        var added := Stamp(Unstored(stored, clean), source, phone, clock);
        if quotaExceeded then SaveOutcome(0, blobs)
        else SaveOutcome(|added|, blobs[key := Records(stored + added)])
  }

  /** `clearStoredEmails`: remove the key; false only when storage throws. */
  function ClearOutcome(key: string, blobs: map<string, Blob>, available: bool): (r: FlagOutcome)
    ensures r.ok == available
    ensures OnlyKeyChanged(blobs, r.blobs, key)
    ensures r.ok ==> key !in r.blobs
    ensures !r.ok ==> r.blobs == blobs
  {
    if available then FlagOutcome(true, blobs - {key}) else FlagOutcome(false, blobs)
  }

  /** `deleteEmail(email)`: read through `getStoredEmails` (which swallows
      its own errors), drop every record with that email and write the rest
      back; false only when the write throws. */
  function DeleteEmailOutcome(
    key: string, blobs: map<string, Blob>, available: bool, quotaExceeded: bool, email: string): (r: FlagOutcome)
    ensures OnlyKeyChanged(blobs, r.blobs, key)
    ensures r.ok == (available && !quotaExceeded)
    ensures !r.ok ==> r.blobs == blobs
  {
    var items := StoredOrEmpty(key, blobs, available);
    if !available || quotaExceeded then FlagOutcome(false, blobs)
    else FlagOutcome(true, blobs[key := Records(Without(items, email))])
  }

  // ---------------------------------------------------------------------
  // Properties of saveEmails
  // ---------------------------------------------------------------------

  /** A successful save keeps the stored list as a prefix and appends only
      valid cleaned addresses that were not stored, each stamped with the
      source and phone; it returns the number appended. */
  lemma SaveEmailsAppendsValid(
    key: string, blobs: map<string, Blob>, emails: seq<string>, source: string, phone: Option<string>,
    clock: nat -> int, stored: seq<StoredItem>)
    requires ParseBlob(Lookup(blobs, key)) == Some(stored)
    ensures var r := SaveEmailsOutcome(key, blobs, true, false, emails, source, phone, clock);
            && key in r.blobs && r.blobs[key].Records?
            && var items := r.blobs[key].items;
            && |items| == |stored| + r.added && items[..|stored|] == stored
            && forall k :: |stored| <= k < |items| ==>
                 && items[k].EmailItem? && items[k].rec.source == source && items[k].rec.phone == phone
                 && IsValidEmail(items[k].rec.email) && items[k].rec.email in CleanedEmails(emails)
                 && !IsStored(stored, items[k].rec.email)
  {
    var clean := CleanedEmails(emails);
    var batch := Unstored(stored, clean);
    var added := Stamp(batch, source, phone, clock);
    var items := stored + added;
    UnstoredMembers(stored, clean);
    CleanedEmailsSound(emails);
    forall k | |stored| <= k < |items|
      ensures items[k].EmailItem? && items[k].rec.source == source && items[k].rec.phone == phone
      ensures IsValidEmail(items[k].rec.email) && items[k].rec.email in clean && !IsStored(stored, items[k].rec.email)
    {
      assert items[k] == added[k - |stored|];
      assert batch[k - |stored|] in batch;
    }
    assert items[..|stored|] == stored;
  }

  /** Saving the same batch again right after a save adds nothing, whatever
      the source, phone or clock of the second call. */
  lemma SaveEmailsTwiceAddsNothing(
    key: string, blobs: map<string, Blob>, emails: seq<string>,
    source: string, phone: Option<string>, clock: nat -> int,
    source2: string, phone2: Option<string>, clock2: nat -> int)
    ensures var first := SaveEmailsOutcome(key, blobs, true, false, emails, source, phone, clock);
            SaveEmailsOutcome(key, first.blobs, true, false, emails, source2, phone2, clock2).added == 0
  {
    match ParseBlob(Lookup(blobs, key))
    case None =>
    case Some(stored) =>
      var clean := CleanedEmails(emails);
      ResaveFindsAllStored(stored, clean, source, phone, clock);
  }

  /** The batch is not de-duplicated: an address that is not yet stored and
      occurs twice in the batch is appended twice. */
  lemma SaveEmailsKeepsBatchDuplicates(
    key: string, blobs: map<string, Blob>, e: string, x: string, source: string, phone: Option<string>,
    clock: nat -> int, stored: seq<StoredItem>)
    requires ParseBlob(Lookup(blobs, key)) == Some(stored)
    requires ValidateAndCleanEmail(e) == Some(x) && !IsStored(stored, x)
    ensures SaveEmailsOutcome(key, blobs, true, false, [e, e], source, phone, clock).added == 2
  {
    CleanTwice(e, x);
    BatchDuplicatePasses(stored, x);
  }

  /** An address given twice is cleaned twice. */
  lemma CleanTwice(e: string, x: string)
    requires ValidateAndCleanEmail(e) == Some(x)
    ensures CleanedEmails([e, e]) == [x, x]
  {
    CleanedEmailsSnoc([], e);
    CleanedEmailsSnoc([e], e);
    assert [e] + [e] == [e, e];
    assert CleanedEmails([]) == [];
  }

  /** An address already present on any stored record (`===` on `email`)
      is not appended again. */
  lemma SaveEmailsSkipsStored(
    key: string, blobs: map<string, Blob>, e: string, x: string, source: string, phone: Option<string>,
    clock: nat -> int, stored: seq<StoredItem>)
    requires ParseBlob(Lookup(blobs, key)) == Some(stored)
    requires ValidateAndCleanEmail(e) == Some(x) && IsStored(stored, x)
    ensures SaveEmailsOutcome(key, blobs, true, false, [e], source, phone, clock).added == 0
  {
    CleanedEmailsSnoc([], e);
    assert [] + [e] == [e];
    assert CleanedEmails([]) == [];
    assert CleanedEmails([e]) == [x];
    assert [x][..0] == [];
  }

  // ---------------------------------------------------------------------
  // Properties of clearStoredEmails, getStoredEmails and deleteEmail
  // ---------------------------------------------------------------------

  /** After a successful clear, reading yields the empty list. */
  lemma ClearThenReadIsEmpty(key: string, blobs: map<string, Blob>)
    ensures var r := ClearOutcome(key, blobs, true);
            r.ok && StoredOrEmpty(key, r.blobs, true) == []
  {
  }

  /** A successful delete leaves exactly the other records, in order. */
  lemma DeleteEmailKeepsOthers(key: string, blobs: map<string, Blob>, email: string)
    ensures var r := DeleteEmailOutcome(key, blobs, true, false, email);
            var before := StoredOrEmpty(key, blobs, true);
            var after := StoredOrEmpty(key, r.blobs, true);
            && r.ok && IsSubsequence(after, before)
            && forall it :: it in after <==> it in before && EmailOf(it) != Some(email)
  {
    var before := StoredOrEmpty(key, blobs, true);
    WithoutKeepsOthers(before, email);
  }

  /** Deleting an address that is not stored still returns true and
      leaves the records as they were. */
  lemma DeleteAbsentEmail(key: string, blobs: map<string, Blob>, email: string)
    requires !IsStored(StoredOrEmpty(key, blobs, true), email)
    ensures var r := DeleteEmailOutcome(key, blobs, true, false, email);
            r.ok && StoredOrEmpty(key, r.blobs, true) == StoredOrEmpty(key, blobs, true)
  {
    WithoutAbsent(StoredOrEmpty(key, blobs, true), email);
  }

  /** The read inside `deleteEmail` swallows a parse failure, so an
      unparsable blob is overwritten with the empty list and true is
      returned. */
  lemma DeleteEmailOverwritesUnparsable(key: string, blobs: map<string, Blob>, email: string)
    requires key in blobs && blobs[key] == Unparsable
    ensures DeleteEmailOutcome(key, blobs, true, false, email) == FlagOutcome(true, blobs[key := Records([])])
  {
  }

  // ---------------------------------------------------------------------
  // The steps, run against the storage object
  // ---------------------------------------------------------------------

  /** The body of `saveEmails` under `key`: clean the batch, read and parse
      the blob, append the stamped records for the addresses not stored,
      write back. A throw at any step returns 0 with nothing written. */
  method SaveEmailsAt(
    store: LocalStorage, key: string, emails: seq<string>, source: string, phone: Option<string>,
    clock: nat -> int) returns (added: nat)
    modifies store`blobs
    ensures var o := SaveEmailsOutcome(key, old(store.blobs), store.available, store.quotaExceeded,
                                       emails, source, phone, clock);
            added == o.added && store.blobs == o.blobs
  {
    var validated := ProcessEmails(emails);
    var cleanEmails := CleanedValues(validated);
    var existing, ok := store.GetItem(key);
    if !ok {
      return 0;
    }
    match ParseBlob(existing) {
      case None =>
        added := 0;
      case Some(stored) =>
        var newEmails := Stamp(Unstored(stored, cleanEmails), source, phone, clock);
        var written := store.SetItem(key, stored + newEmails);
        added := if written then |newEmails| else 0;
    }
  }

  /** The body of `getStoredEmails` (and `getStoredPosts`) under `key`. */
  method ReadAt(store: LocalStorage, key: string) returns (items: seq<StoredItem>)
    ensures items == StoredOrEmpty(key, store.blobs, store.available)
  {
    var data, ok := store.GetItem(key);
    if !ok {
      return [];
    }
    match ParseBlob(data) {
      case None => items := [];
      case Some(parsed) => items := parsed;
    }
  }

  /** The body of `clearStoredEmails` under `key`. */
  method ClearAt(store: LocalStorage, key: string) returns (ok: bool)
    modifies store`blobs
    ensures var o := ClearOutcome(key, old(store.blobs), store.available);
            ok == o.ok && store.blobs == o.blobs
  {
    ok := store.RemoveItem(key);
  }

  /** The body of `deleteEmail` under `key`. */
  method DeleteEmailAt(store: LocalStorage, key: string, email: string) returns (ok: bool)
    modifies store`blobs
    ensures var o := DeleteEmailOutcome(key, old(store.blobs), store.available, store.quotaExceeded, email);
            ok == o.ok && store.blobs == o.blobs
  {
    var storedEmails := ReadAt(store, key);
    ok := store.SetItem(key, Without(storedEmails, email));
  }
}
