/** The browser's `localStorage` as the stores use it: a map from keys to
    blobs, with the two ways a call can throw made explicit. */
module BrowserStorage {
  import opened Wrappers
  import opened StoredRecords

  class LocalStorage {
    /** The blobs present, by key. */
    var blobs: map<string, Blob>
    /** False when every call throws (no `window`, storage disabled). */
    var available: bool
    /** True when `setItem` throws for lack of quota. */
    var quotaExceeded: bool

    constructor (blobs: map<string, Blob>, available: bool, quotaExceeded: bool)
      ensures this.blobs == blobs && this.available == available && this.quotaExceeded == quotaExceeded
    {
      this.blobs := blobs;
      this.available := available;
      this.quotaExceeded := quotaExceeded;
    }

    /** `getItem(key)`: `ok` is false when the call throws; otherwise `blob`
        is the blob under the key, None for null. */
    method GetItem(key: string) returns (blob: Option<Blob>, ok: bool)
      ensures ok == available
      ensures ok ==> blob == (if key in blobs then Some(blobs[key]) else None)
    {
      ok := available;
      blob := if ok && key in blobs then Some(blobs[key]) else None;
    }

    /** `setItem(key, JSON.stringify(items))`. */
    method SetItem(key: string, items: seq<StoredItem>) returns (ok: bool)
      modifies this`blobs
      ensures ok == (available && !quotaExceeded)
      ensures blobs == if ok then old(blobs)[key := Records(items)] else old(blobs)
    {
      ok := available && !quotaExceeded;
      if ok {
        blobs := blobs[key := Records(items)];
      }
    }

    /** `removeItem(key)`. */
    method RemoveItem(key: string) returns (ok: bool)
      modifies this`blobs
      ensures ok == available
      ensures blobs == if ok then old(blobs) - {key} else old(blobs)
    {
      ok := available;
      if ok {
        blobs := blobs - {key};
      }
    }
  }
}
