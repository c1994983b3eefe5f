/** The email store of the app directory: `storageHelper` over the key
    "linkedin_parsed_emails". Every operation is the shared
    read-modify-write of `EmailStore` under this key; the properties proved
    there hold for it as stated. */
module EmailStorage {
  import opened Wrappers
  import opened StoredRecords
  import opened BrowserStorage
  import opened EmailStore

  const StorageKey := "linkedin_parsed_emails"

  /** `saveEmails(emails, source, phone)`. */
  method SaveEmails(store: LocalStorage, emails: seq<string>, source: string, phone: Option<string>, clock: nat -> int)
    returns (added: nat)
    modifies store`blobs
    ensures var o := SaveEmailsOutcome(StorageKey, old(store.blobs), store.available, store.quotaExceeded,
                                       emails, source, phone, clock);
            added == o.added && store.blobs == o.blobs
  {
    added := SaveEmailsAt(store, StorageKey, emails, source, phone, clock);
  }

  /** `getStoredEmails()`. */
  method GetStoredEmails(store: LocalStorage) returns (items: seq<StoredItem>)
    ensures items == StoredOrEmpty(StorageKey, store.blobs, store.available)
  {
    items := ReadAt(store, StorageKey);
  }

  /** `clearStoredEmails()`. */
  method ClearStoredEmails(store: LocalStorage) returns (ok: bool)
    modifies store`blobs
    ensures var o := ClearOutcome(StorageKey, old(store.blobs), store.available);
            ok == o.ok && store.blobs == o.blobs
  {
    ok := ClearAt(store, StorageKey);
  }

  /** `deleteEmail(email)`. */
  method DeleteEmail(store: LocalStorage, email: string) returns (ok: bool)
    modifies store`blobs
    ensures var o := DeleteEmailOutcome(StorageKey, old(store.blobs), store.available, store.quotaExceeded, email);
            ok == o.ok && store.blobs == o.blobs
  {
    ok := DeleteEmailAt(store, StorageKey, email);
  }
}
