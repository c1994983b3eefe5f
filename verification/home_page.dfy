/** The home page's extraction (`parseContent` and its two finders): pull
    the title, a few selector texts, the emails and the phone numbers out
    of pasted page source, and hand the emails to the shared record store
    as a ", "-joined string split back into a list. The parsed document is
    given as the texts its selectors yield and the matches of the two
    finders' regexes. */
module HomePage {
  import opened Wrappers
  import opened Seqs
  import opened JsString
  import opened StoredRecords
  import opened BrowserStorage
  import opened EmailStore
  import opened EmailValidation
  import ContentFetch
  import DataStorage

  /** `ParsedData`: every field is optional in the source. */
  datatype ParsedData = ParsedData(
    title: Option<string>, name: Option<string>, company: Option<string>,
    email: Option<string>, phone: Option<string>,
    description: Option<string>, location: Option<string>)

  /** What the parsed document offers: `doc.title`, the `textContent` of
      the selected elements (None when no element matches), the matches of
      the email regex in the body text, and the matches of each of the four
      phone regexes. */
  datatype PageView = PageView(
    title: string, heading: Option<string>, company: Option<string>,
    description: Option<string>, location: Option<string>,
    emailMatches: seq<string>, phoneMatches: seq<seq<string>>)

  const Separator := ", "
  const UnknownSource := "Unknown Source"

  // ---------------------------------------------------------------------
  // findEmails
  // ---------------------------------------------------------------------

  /** The extra filter of `findEmails`. */
  predicate KeepEmail(email: string) {
    && !Includes(email, "..") && !Includes(email, ".-") && !Includes(email, "-.")
    && !EndsWith(email, ".")
    && |Split(email, "@")[0]| > 1
  }

  /** `emails.filter(KeepEmail)`. */
  function KeptEmails(matches: seq<string>): (r: seq<string>)
    ensures |r| <= |matches|
  {
    Filter(matches, KeepEmail)
  }

  /** `findEmails(doc)`: the kept matches joined with ", ". */
  function FindEmails(matches: seq<string>): string {
    Join(KeptEmails(matches), Separator)
  }

  /** A match of `/[A-Za-z0-9._%+-]+@[A-Za-z0-9.-]+\.[A-Za-z]{2,}/` is
      made of these characters only. */
  predicate IsMatchChar(c: char) {
    IsLocalChar(c) || c == '@'
  }

  predicate MatchChars(m: string) {
    forall j :: 0 <= j < |m| ==> IsMatchChar(m[j])
  }

  // ---------------------------------------------------------------------
  // findPhoneNumbers and the title
  // ---------------------------------------------------------------------

  /** `findPhoneNumbers(doc)`: the same `Set` filling as the content
      service's `extractPhoneNumbers`, joined with ", ". */
  method FindPhoneNumbers(phoneMatches: seq<seq<string>>) returns (joined: string)
    ensures joined == Join(ContentFetch.PhoneList(phoneMatches), Separator)
  {
    var phones := ContentFetch.ExtractPhoneNumbers(phoneMatches);
    joined := Join(phones, Separator);
  }

  /** `doc.title.replace("| LinkedIn", "").trim()`. */
  function TitleOf(title: string): (r: string)
    ensures |r| <= |title|
  {
    Trim(ReplaceFirst(title, "| LinkedIn", ""))
  }

  /** `extractedData.title || "Unknown Source"`. */
  function SourceOf(title: string): (r: string)
    ensures r != []
    ensures r == TitleOf(title) || r == UnknownSource
  {
    var t := TitleOf(title);
    if t == [] then UnknownSource else t
  }

  function TrimText(text: Option<string>): (r: Option<string>)
    ensures r.Some? <==> text.Some?
  {
    match text
    case None => None
    case Some(t) => Some(Trim(t))
  }

  /** `extractedData`, given the joined phone numbers. */
  function Extracted(page: PageView, phone: string): ParsedData {
    ParsedData(
      Some(TitleOf(page.title)), TrimText(page.heading), TrimText(page.company),
      Some(FindEmails(page.emailMatches)), Some(phone),
      TrimText(page.description), TrimText(page.location))
  }

  // ---------------------------------------------------------------------
  // parseContent
  // ---------------------------------------------------------------------

  /** `parseContent()`. Nothing happens for empty source. Otherwise the
      data is extracted; when the joined emails are non-empty they are
      split at ", " and saved under the shared key with the title (or
      "Unknown Source") and the joined phone string, and the stored records
      are read back for display (`shown`). */
  method ParseContent(
    store: LocalStorage, sourceCode: string, page: PageView, clock: nat -> int)
    returns (parsed: Option<ParsedData>, shown: Option<seq<StoredItem>>)
    modifies store`blobs
    ensures sourceCode == [] ==> parsed.None? && shown.None? && store.blobs == old(store.blobs)
    ensures sourceCode != [] ==>
              var phone := Join(ContentFetch.PhoneList(page.phoneMatches), Separator);
              var email := FindEmails(page.emailMatches);
              && parsed == Some(Extracted(page, phone))
              && (email == [] ==> shown.None? && store.blobs == old(store.blobs))
              && (email != [] ==>
                    && store.blobs == SaveEmailsOutcome(DataStorage.StorageKey, old(store.blobs),
                         store.available, store.quotaExceeded, Split(email, Separator),
                         SourceOf(page.title), Some(phone), clock).blobs
                    && shown == Some(StoredOrEmpty(DataStorage.StorageKey, store.blobs, store.available)))
  {
    if sourceCode == [] {
      return None, None;
    }
    var phone := FindPhoneNumbers(page.phoneMatches);
    var extractedData := Extracted(page, phone);
    shown := None;
    if extractedData.email.value != [] {
      var emails := Split(extractedData.email.value, Separator);
      var source := if extractedData.title.value != [] then extractedData.title.value else UnknownSource;
      var _ := DataStorage.SaveEmails(store, emails, source, extractedData.phone, clock);
      var stored := DataStorage.GetStoredEmails(store);
      shown := Some(stored);
    }
    parsed := Some(extractedData);
  }

  // ---------------------------------------------------------------------
  // Properties
  // ---------------------------------------------------------------------

  /** A match is kept exactly when it passes the filter, and the kept
      matches stay in match order. */
  lemma KeptEmailsMembers(matches: seq<string>)
    ensures forall x :: x in KeptEmails(matches) <==> x in matches && KeepEmail(x)
    ensures IsSubsequence(KeptEmails(matches), matches)
  {
    FilterMembers(matches, KeepEmail);
  }

  /** A kept match is never empty: its local part has two characters. */
  lemma KeptIsNonEmpty(email: string)
    requires KeepEmail(email)
    ensures email != []
  {
  }

  /** The joined string is empty exactly when no match is kept, so
      `parseContent` saves exactly when some match survives the filter. */
  lemma FindEmailsEmptyIff(matches: seq<string>)
    ensures FindEmails(matches) == [] <==> KeptEmails(matches) == []
  {
    var kept := KeptEmails(matches);
    if kept != [] {
      KeptIsNonEmpty(kept[0]);
      if |kept| > 1 {
        assert Join(kept, Separator) == kept[0] + Separator + Join(kept[1..], Separator);
      }
    }
  }

  /** The hand-off through a string is lossless: matches contain neither
      "," nor " ", so splitting the joined kept matches at ", " gives them
      back, and those are exactly what `saveEmails` receives. */
  lemma FindEmailsSplitsBack(matches: seq<string>)
    requires forall k :: 0 <= k < |matches| ==> MatchChars(matches[k])
    requires KeptEmails(matches) != []
    ensures Split(FindEmails(matches), Separator) == KeptEmails(matches)
  {
    var kept := KeptEmails(matches);
    KeptEmailsMembers(matches);
    forall k, j | 0 <= k < |kept| && 0 <= j < |kept[k]| ensures kept[k][j] != Separator[0] {
      assert kept[k] in matches;
      var i :| 0 <= i < |matches| && matches[i] == kept[k];
      assert IsMatchChar(matches[i][j]);
    }
    SplitJoin(kept, Separator);
  }

  /** A one-letter local part is dropped. */
  lemma ShortLocalPartDropped(s: string)
    requires s == "a@example.com"
    ensures !KeepEmail(s)
  {
    assert OccursAt(s, 1, "@") by { assert s[1..2] == "@"; }
    assert !OccursAt(s, 0, "@") by { assert s[0..1] == "a"; }
    assert IndexOf(s, "@") == Some(1);
    SplitHeadIsPrefix(s, "@");
    assert Split(s, "@")[0] == s[..1];
  }

  /** A page titled only "| LinkedIn" is saved with source "Unknown Source". */
  lemma BareTitleIsUnknownSource(title: string)
    requires title == "| LinkedIn"
    ensures SourceOf(title) == UnknownSource
  {
    assert OccursAt(title, 0, "| LinkedIn");
    assert IndexOf(title, "| LinkedIn") == Some(0);
    assert ReplaceFirst(title, "| LinkedIn", "") == [];
    assert Trim([]) == [];
  }
}
