# scrapple — a verified model of the LinkedIn scraper and mailer core

scrapple reads LinkedIn page source, which is pasted into the home page or
fetched into the content service. It pulls out posts, e-mail addresses and
phone numbers and keeps them as JSON in the browser's `localStorage`. A
server route then sends a résumé e-mail to one contact per address. This
project models that core in Dafny and proves what the code promises about it.

Modules, one per core source file plus shared ones:

| module | file | models |
|---|---|---|
| `Wrappers`, `Seqs`, `JsString` | `wrappers.dfy`, `seqs.dfy`, `js_string.dfy` | `Option`, sequence helpers, and the ECMAScript string built-ins the code relies on (`trim`, `replace` with a string pattern, which replaces the first occurrence only, `split`, `join`, `includes`) |
| `EmailValidation` | `email_validation.dfy` | `EmailValidationService`: the e-mail regular expression as a decision procedure, `cleanDomainSuffixes` as a leftmost-match cut, `validateAndCleanEmail` and `processEmails` |
| `StoredRecords` | `records.dfy` | `StoredEmail` and `StoredPost`; the list filters the stores apply |
| `BrowserStorage` | `local_storage.dfy` | `localStorage` as a class: a map from keys to blobs, plus flags for a store that throws and for a full quota |
| `EmailStore` | `email_store.dfy` | the read-modify-write steps both storage helpers share, as outcome functions and as methods on the storage object |
| `EmailStorage` | `email_storage.dfy` | `src/app/helpers/storage.ts` (key `linkedin_parsed_emails`) |
| `DataStorage` | `data_storage.dfy` | `src/helpers/storage.ts` (key `linkedin_parsed_data`, where e-mail records and post records share one array) |
| `EmailListSanitizer` | `email_list_sanitizer.dfy` | `sanitizeEmailList` |
| `SendEmailRoute` | `send_email_route.dfy` | `POST /api/send-email` |
| `ContentFetch` | `content_fetch.dfy` | `LinkedInContentFetcherService`: sanitising the parsed document in place, the extractors, `analyzeContent` |
| `HomePage` | `home_page.dfy` | `parseContent`, `findEmails` and `findPhoneNumbers` of the home page |

How the world outside the code is modelled:
- **Time, ids and mail.** `Date.now()` and `new Date()` are a `clock: nat -> int` whose k-th reading is taken in the k-th step. A comment built by `getBasicComments` reads the clock at the index of its id draw, so every comment has its own reading. `crypto.randomUUID()` is a `uuid: nat -> string` that yields the k-th draw. `transporter.sendMail` is a `transport: nat -> SendOutcome` that decides the send to the k-th contact; it is not consulted for a contact whose message is never built.
- **Regular expressions.** The scans of the e-mail and phone regexes over page text are inputs: the lists of matches. The validator's regexes are modelled exactly.
- **The parsed document.** The texts that selector queries return are inputs. The sanitised document is a tree of `Node` values held by a `ParsedDocument` object.
- **Route side effects.** The route returns the sends and pauses it performs as a list of effects.

Two source files that the code imports are not part of this model:
- `src/services/linkedin-content-fetch.service.ts`: `src/helpers/storage.ts` imports its `LinkedInPost` type. The shape declared in `src/app/services/linkedin-content-fetch.service.ts` is used in its place.
- `src/app/services/email-validation.service.ts`: `src/app/helpers/storage.ts` and the content service import it. The validator of `src/services/email-validation.service.ts` is used in its place.

Where the code differs from what a reader would expect, the model follows the code:
- The route pauses only after a delivered message, not between every two sends.
- A contact without an `author` does not stop the route: building its subject throws inside the per-contact `try`, so it gets a failed result and no message.
- `savePosts` returns the number of posts it was given, not the number it appended.
- `savePosts` checks ids only against the stored blob, so two new posts with the same id in one call are both appended (`DataStorage.SavePostsKeepsBatchDuplicateIds`).
- `saveEmails` checks addresses only against the stored blob, so an unstored address given twice in one call is appended twice (`EmailStore.SaveEmailsKeepsBatchDuplicates`).
- The home page saves into the shared `linkedin_parsed_data` store.

## Model

| member | source | states |
|---|---|---|
| EmailValidation.ValidEmailIffPattern | src/services/email-validation.service.ts:33-37 | the search-free check accepts a string exactly when it splits as local part, "@", domain, ".", a TLD of two or more letters, each from the regex's character classes (both directions) |
| EmailValidation.ValidExample | src/services/email-validation.service.ts:35 | "a@b.com" is valid |
| EmailValidation.InvalidExample | src/services/email-validation.service.ts:35 | "a@b.comAt!" is invalid, because the anchored pattern rejects trailing text |
| EmailValidation.SuffixAt | src/services/email-validation.service.ts:27 | a cut position is found at `i` exactly when the suffix pattern matches there; the kept part then ends right after a TLD of three or five characters |
| EmailValidation.Leftmost | src/services/email-validation.service.ts:26-30 | the position found matches and no position before it does; no result means nothing matches at or after the start |
| EmailValidation.CleanDomainSuffixes | src/services/email-validation.service.ts:25-31 | cleaning never lengthens the string; on a single line it only cuts the string short (the result is a prefix) |
| EmailValidation.CleanReplacesLeftmostMatch | src/services/email-validation.service.ts:27-30 | with no match of the suffix pattern the string is unchanged; otherwise exactly the leftmost match is replaced by "." and its TLD, and the rest of that line is removed |
| EmailValidation.CleanIdempotent | src/services/email-validation.service.ts:25-31 | on input without line terminators, cleaning twice equals cleaning once |
| EmailValidation.CleanNotIdempotentAcrossLines | src/services/email-validation.service.ts:28 | because `.*` stops at a line terminator, a two-line input changes again on a second cleaning |
| EmailValidation.CleanExample | src/services/email-validation.service.ts:28 | "a@b.comAt!" cleans to "a@b.com" |
| EmailValidation.CleanCutsKeywordSuffix | src/services/email-validation.service.ts:25-31 | an address without "." followed by ".com", a keyword (any of the nine) and the rest of a single line is cut back to the address and ".com", e.g. "jo@x.comSubject: Hi" becomes "jo@x.com" |
| EmailValidation.CleanExampleUpperCase | src/services/email-validation.service.ts:28 | the TLD and the keyword match regardless of case ("a@b.COMJOB" cleans to "a@b.COM") |
| EmailValidation.ValidateAndCleanEmailSpec | src/services/email-validation.service.ts:20-23 | a non-null result is the cleaned string and is valid; null means the cleaned string is invalid; the result is non-null exactly when the cleaned string matches the address pattern |
| EmailValidation.ProcessEmailsEntries | src/services/email-validation.service.ts:40-48 | every verdict kept has a cleaned value and is the verdict on one of the inputs |
| EmailValidation.ProcessEmails | src/services/email-validation.service.ts:40-48 | at most one entry per input, and every entry kept has a non-null cleaned value |
| EmailValidation.ProcessEmailsKeepsOrder | src/services/email-validation.service.ts:40-48 | the kept verdicts' originals are a subsequence of the inputs |
| EmailValidation.ProcessEmailsKeepsAccepted | src/services/email-validation.service.ts:44-47 | an input whose cleaned value is non-null is kept |
| EmailValidation.KeptButOriginalInvalid | src/services/email-validation.service.ts:44-45 | `isValid` judges the original, so a kept entry can carry `isValid: false` |
| EmailValidation.CleanedEmailsSound | src/helpers/storage.ts:29-34 | every cleaned address handed on is valid and is the cleaned value of some input |
| EmailValidation.CleanedEmailsComplete | src/helpers/storage.ts:29-34 | every input with a non-null cleaned value contributes it |
| EmailValidation.CleanedEmailsSnoc | src/helpers/storage.ts:29-34 | one more input appends its cleaned value, if any, at the end |
| StoredRecords.ParseBlob | src/helpers/storage.ts:38-41 | a missing blob reads as the empty list; only an unparsable blob fails |
| StoredRecords.Unstored | src/helpers/storage.ts:44-47 | no address that passes the filter is stored |
| StoredRecords.UnstoredMembers | src/helpers/storage.ts:44-47 | an address passes exactly when it is in the batch and not stored, in batch order |
| StoredRecords.BatchDuplicatePasses | src/helpers/storage.ts:44-47 | an unstored address that occurs twice in the batch passes twice |
| StoredRecords.Stamp | src/helpers/storage.ts:48-53 | one e-mail record per address, in order, each carrying its address |
| StoredRecords.ResaveFindsAllStored | src/helpers/storage.ts:44-57 | after the new records are appended, the same batch passes nothing |
| StoredRecords.Without | src/helpers/storage.ts:91-92 | no remaining record carries the deleted address |
| StoredRecords.WithoutKeepsOthers | src/helpers/storage.ts:91-92 | the records kept are exactly those without the address, in order |
| StoredRecords.WithoutAbsent | src/helpers/storage.ts:91-92 | deleting an address not stored keeps the list unchanged |
| StoredRecords.WithoutIdempotent | src/helpers/storage.ts:91-92 | deleting twice equals deleting once |
| BrowserStorage.LocalStorage.GetItem | src/helpers/storage.ts:38 | throws when storage is unavailable; otherwise yields the blob under the key or null |
| BrowserStorage.LocalStorage.SetItem | src/helpers/storage.ts:56-57 | writes the key alone, and fails with nothing written when storage is unavailable or full |
| BrowserStorage.LocalStorage.RemoveItem | src/helpers/storage.ts:80 | removes the key alone, unless storage is unavailable |
| EmailStore.StoredOrEmpty | src/helpers/storage.ts:67-75 | the stored list when the blob parses; the empty list when storage throws, the key is absent or the blob is unparsable |
| EmailStore.SaveEmailsOutcome | src/helpers/storage.ts:27-64 | only the store's own key changes; any throw returns 0 and changes nothing |
| EmailStore.ClearOutcome | src/helpers/storage.ts:78-86 | false only when storage throws; on success the key is gone and nothing else changes |
| EmailStore.DeleteEmailOutcome | src/helpers/storage.ts:89-99 | only the key changes; false exactly when the write throws, and then nothing changes |
| EmailStore.SaveEmailsAppendsValid | src/helpers/storage.ts:27-59 | a successful save keeps the stored list as a prefix and appends the returned number of e-mail records, each with the given source and phone |
| EmailStore.SaveEmailsTwiceAddsNothing | src/helpers/storage.ts:44-47 | saving the same batch again adds nothing, whatever source, phone or clock |
| EmailStore.SaveEmailsKeepsBatchDuplicates | src/helpers/storage.ts:44-59 | an unstored address given twice in one batch is appended twice |
| EmailStore.SaveEmailsSkipsStored | src/helpers/storage.ts:44-47 | an address already on a stored record is not appended |
| EmailStore.ClearThenReadIsEmpty | src/helpers/storage.ts:67-86 | after a successful clear, reading gives the empty list |
| EmailStore.DeleteEmailKeepsOthers | src/helpers/storage.ts:89-95 | a successful delete leaves exactly the other records, in order |
| EmailStore.DeleteAbsentEmail | src/helpers/storage.ts:89-95 | deleting an absent address returns true and leaves the records as they were |
| EmailStore.DeleteEmailOverwritesUnparsable | src/helpers/storage.ts:89-95 | the read swallows the parse error, so a blob that `JSON.parse` rejects is overwritten with [] and true is returned |
| EmailStore.SaveEmailsAt | src/helpers/storage.ts:27-64 | running the steps on the storage object returns the outcome's count and leaves its blobs |
| EmailStore.ReadAt | src/helpers/storage.ts:67-75 | returns the stored list, or the empty list on any failure |
| EmailStore.ClearAt | src/helpers/storage.ts:78-86 | removing the key ends in the clear outcome |
| EmailStore.DeleteEmailAt | src/helpers/storage.ts:89-99 | read, filter and write back ends in the delete outcome |
| EmailStorage.SaveEmails | src/app/helpers/storage.ts:14-51 | the save outcome under `linkedin_parsed_emails` |
| EmailStorage.GetStoredEmails | src/app/helpers/storage.ts:54-62 | the stored list under `linkedin_parsed_emails`, or [] |
| EmailStorage.ClearStoredEmails | src/app/helpers/storage.ts:65-73 | the clear outcome under `linkedin_parsed_emails` |
| EmailStorage.DeleteEmail | src/app/helpers/storage.ts:76-86 | the delete outcome under `linkedin_parsed_emails` |
| DataStorage.SaveEmails | src/helpers/storage.ts:27-64 | the save outcome under `linkedin_parsed_data` |
| DataStorage.GetStoredEmails | src/helpers/storage.ts:67-75 | the stored list under `linkedin_parsed_data`, post records included |
| DataStorage.ClearStoredEmails | src/helpers/storage.ts:78-86 | the clear outcome under `linkedin_parsed_data`, which drops the posts too |
| DataStorage.DeleteEmail | src/helpers/storage.ts:89-99 | the delete outcome under `linkedin_parsed_data`, which also drops posts whose first e-mail matches |
| DataStorage.NewPosts | src/helpers/storage.ts:109-119 | one record per post given |
| DataStorage.NewPostsEntries | src/helpers/storage.ts:109-119 | record k carries post k's id, author, content, first e-mail and first phone (none for an empty list) and the k-th clock reading |
| DataStorage.UnstoredPosts | src/helpers/storage.ts:122-127 | every record that passes is a post whose id is not stored |
| DataStorage.UnstoredPostsMembers | src/helpers/storage.ts:122-127 | a record passes exactly when it is new and its id is not stored, in input order |
| DataStorage.AllIdsStoredPassNothing | src/helpers/storage.ts:122-127 | when every id is stored, nothing passes |
| DataStorage.SavePostsOutcome | src/helpers/storage.ts:102-135 | only the key changes; success returns `posts.length`; any throw returns 0 and changes nothing |
| DataStorage.SavePosts | src/helpers/storage.ts:102-135 | running the steps on the storage object ends in the outcome |
| DataStorage.GetStoredPosts | src/helpers/storage.ts:138-146 | the same read as `getStoredEmails`, e-mail records included |
| DataStorage.SavePostsAppendsNewIds | src/helpers/storage.ts:122-130 | a successful save keeps the stored prefix and appends only records of the given posts with unstored ids |
| DataStorage.SavePostsTwiceAppendsNothing | src/helpers/storage.ts:122-130 | saving the same posts again writes the blob back unchanged and still returns `posts.length` |
| DataStorage.SavePostsKeepsBatchDuplicateIds | src/helpers/storage.ts:122-127 | two new posts with the same unstored id are both appended |
| DataStorage.SavedPostBlocksItsEmail | src/helpers/storage.ts:23-47 | because the key is shared, a saved post's first e-mail counts as stored for a later `saveEmails` |
| EmailListSanitizer.FirstPerEmail | src/helpers/emailListSanitizer.ts:3-16 | no more contacts than posts, and each one has a non-empty address |
| EmailListSanitizer.SanitizeEmailList | src/helpers/emailListSanitizer.ts:3-16 | the map filled first-come and its values in insertion order give exactly the first post per address |
| EmailListSanitizer.FirstPerEmailContents | src/helpers/emailListSanitizer.ts:6-13 | the contacts' addresses are pairwise different, and an address appears among them exactly when it is non-empty and some post carries it |
| EmailListSanitizer.FirstPerEmailSubsequence | src/helpers/emailListSanitizer.ts:6-13 | the contacts are posts, in their original order |
| EmailListSanitizer.FirstPerEmailKeepsFirst | src/helpers/emailListSanitizer.ts:7-9 | each contact is the first post carrying its address |
| EmailListSanitizer.FirstPerEmailFixpoint | src/helpers/emailListSanitizer.ts:3-16 | a list whose posts all have distinct non-empty addresses is left as it is |
| EmailListSanitizer.SanitizeIdempotent | src/helpers/emailListSanitizer.ts:3-16 | sanitising twice equals sanitising once |
| EmailListSanitizer.SecondPostWithSameEmailDropped | src/helpers/emailListSanitizer.ts:7 | of two posts with the same address, the second is dropped |
| SendEmailRoute.Post | src/app/api/send-email/route.ts:12-55 | a body without posts, or an unreadable PDF, answers 500 and sends nothing; otherwise the report and the effects over the de-duplicated contacts |
| SendEmailRoute.SendResults | src/app/api/send-email/route.ts:20-44 | one result per contact |
| SendEmailRoute.SendEffects | src/app/api/send-email/route.ts:22-44 | at most two effects per contact |
| SendEmailRoute.EffectsOf | src/app/api/send-email/route.ts:22-44 | a contact without an author is sent nothing; otherwise exactly its message, followed by a pause exactly when it was delivered |
| SendEmailRoute.CountStatus | src/app/api/send-email/route.ts:49-50 | a count never exceeds the number of results |
| SendEmailRoute.SendResultsEntries | src/app/api/send-email/route.ts:38-43 | result k carries contact k's address and is "success" exactly when contact k has an author and its send was delivered; a failure records the missing author or the transport's error |
| SendEmailRoute.TotalsAddUp | src/app/api/send-email/route.ts:49-50 | `totalSent + totalFailed` equals the number of results |
| SendEmailRoute.SentCountsDeliveriesAndPauses | src/app/api/send-email/route.ts:38-39 | `totalSent` is the number of contacts with an author whose send was delivered, and the route paused exactly that often |
| SendEmailRoute.EveryContactAttempted | src/app/api/send-email/route.ts:22-44 | a failure does not stop the loop: each contact with an author gets exactly one message, in order, and no other message is sent |
| SendEmailRoute.AllRejectedStillSuccess | src/app/api/send-email/route.ts:46-51 | with every send rejected the answer still says `success: true`, with 0 sent, all failed and no pause |
| SendEmailRoute.SameAddressSentOnce | src/app/api/send-email/route.ts:18-24 | two posted contacts with one address get at most one message, the first one's |
| SendEmailRoute.ContactWithoutAuthorFails | src/app/api/send-email/route.ts:23-43 | a contact without an author gets a failed result with the `TypeError` and causes no send and no pause |
| ContentFetch.ParsedDocument.RemoveNetworkElements | src/app/services/linkedin-content-fetch.service.ts:81-83 | the document's nodes become the pruned tree |
| ContentFetch.ParsedDocument.RemoveEventHandlers | src/app/services/linkedin-content-fetch.service.ts:86-97 | the document's nodes become the stripped tree |
| ContentFetch.RemoveRiskyAttributes | src/app/services/linkedin-content-fetch.service.ts:89-96 | removing each risky attribute of the snapshot by name leaves exactly the safe attributes, in order |
| ContentFetch.StripTree | src/app/services/linkedin-content-fetch.service.ts:86-97 | the handler run on every matching element of a forest gives the stripped forest |
| ContentFetch.StripElement | src/app/services/linkedin-content-fetch.service.ts:86-97 | the same for one subtree |
| ContentFetch.KeepSafe | src/app/services/linkedin-content-fetch.service.ts:90-96 | no kept attribute has a risky name |
| ContentFetch.KeepSafeMembers | src/app/services/linkedin-content-fetch.service.ts:90-96 | an attribute is kept exactly when it is present and its name is safe, in order |
| ContentFetch.StripAttrsRemovesTriggers | src/app/services/linkedin-content-fetch.service.ts:86-97 | after the handler no element matches the selector, and an element that did not match is untouched |
| ContentFetch.MouseOverHandlerSurvives | src/app/services/linkedin-content-fetch.service.ts:87 | an `onmouseover` handler on an element without a trigger attribute survives |
| ContentFetch.SourceElementLosesAllHandlers | src/app/services/linkedin-content-fetch.service.ts:89-96 | on an element with `src`, every `on…` attribute goes too |
| ContentFetch.PruneAllSafe | src/app/services/linkedin-content-fetch.service.ts:81-83 | after the removal no resource-loading element remains at any depth |
| ContentFetch.PruneAllKeepsSafe | src/app/services/linkedin-content-fetch.service.ts:81-83 | a tree without such elements is left as it is |
| ContentFetch.PruneAllIdempotent | src/app/services/linkedin-content-fetch.service.ts:81-83 | removing twice equals removing once |
| ContentFetch.StripAllSafe | src/app/services/linkedin-content-fetch.service.ts:86-97 | after the handlers no element anywhere matches the trigger selector |
| ContentFetch.StripAllKeepsSafe | src/app/services/linkedin-content-fetch.service.ts:86-97 | a tree without triggers is left as it is |
| ContentFetch.StripAllIdempotent | src/app/services/linkedin-content-fetch.service.ts:86-97 | stripping twice equals stripping once |
| ContentFetch.StripAllKeepsNoNetwork | src/app/services/linkedin-content-fetch.service.ts:81-97 | stripping does not bring back a resource-loading element |
| ContentFetch.SanitizedPageIsSafe | src/app/services/linkedin-content-fetch.service.ts:80-97 | the sanitised document has neither resource-loading elements nor trigger attributes |
| ContentFetch.MailtoEmails | src/app/services/linkedin-content-fetch.service.ts:186-191 | at most one address per link |
| ContentFetch.ExtractEmails | src/app/services/linkedin-content-fetch.service.ts:172-207 | every address returned is valid |
| ContentFetch.MailtoAddress | src/app/services/linkedin-content-fetch.service.ts:186-191 | a matched link yields the trimmed text after "mailto:" |
| ContentFetch.MailtoLinksTakePrecedence | src/app/services/linkedin-content-fetch.service.ts:194-206 | once a link yields an address, the text is never consulted |
| ContentFetch.TextFallbackWithoutLinks | src/app/services/linkedin-content-fetch.service.ts:194-201 | without link addresses, the cleaned text matches are returned: an address is listed exactly when some text match validates and cleans to it |
| ContentFetch.EmptyMailtoHidesText | src/app/services/linkedin-content-fetch.service.ts:186-206 | a bare "mailto:" link gives no address and also hides valid addresses in the text |
| ContentFetch.ExtractPhoneNumbers | src/app/services/linkedin-content-fetch.service.ts:209-227 | filling a `Set` pattern by pattern gives the phone list |
| ContentFetch.PhoneListContents | src/app/services/linkedin-content-fetch.service.ts:218-226 | the numbers are distinct and normalised, and are exactly the normalised forms of the matches |
| ContentFetch.PhoneListFirstSeen | src/app/services/linkedin-content-fetch.service.ts:218-226 | numbers found by earlier patterns come first, in first-seen order |
| ContentFetch.PhoneFoundTwiceKeptOnce | src/app/services/linkedin-content-fetch.service.ts:222-223 | one number matched twice with different spacing is kept once |
| ContentFetch.CollapseWhitespace | src/app/services/linkedin-content-fetch.service.ts:222 | collapsing never lengthens the text |
| ContentFetch.CollapseIsSingleSpaced | src/app/services/linkedin-content-fetch.service.ts:222 | the collapsed text has whitespace only as single spaces, and starts with one exactly when the match started with whitespace |
| ContentFetch.CollapseSingleSpaced | src/app/services/linkedin-content-fetch.service.ts:222 | single-spaced text has nothing to collapse |
| ContentFetch.NormalizeIsNormalized | src/app/services/linkedin-content-fetch.service.ts:222 | a normalised match is single-spaced with no whitespace at either end |
| ContentFetch.NormalizeIdempotent | src/app/services/linkedin-content-fetch.service.ts:222 | normalising twice equals normalising once |
| ContentFetch.ConnectionDegreeCases | src/app/services/linkedin-content-fetch.service.ts:313-321 | 2 exactly when the text contains "2nd"; 3 exactly when it contains "3rd" and not "2nd"; otherwise undefined |
| ContentFetch.KeepDigits | src/app/services/linkedin-content-fetch.service.ts:271 | only digits are kept |
| ContentFetch.KeepDigitsConcat | src/app/services/linkedin-content-fetch.service.ts:271 | the digits of a concatenation are the digits of each part |
| ContentFetch.KeepDigitsOfDigits | src/app/services/linkedin-content-fetch.service.ts:271 | a digit string is kept whole |
| ContentFetch.BasicReactions | src/app/services/linkedin-content-fetch.service.ts:267-284 | the count is the decimal value of the text's digits (0 without an element); every per-type count is 0 |
| ContentFetch.ReactionsWithThousandsSeparator | src/app/services/linkedin-content-fetch.service.ts:268-274 | "1,234" counts 1234 |
| ContentFetch.TrimOr | src/app/services/linkedin-content-fetch.service.ts:249 | the trimmed text when it is non-empty, the fallback otherwise; so the result is the fallback or has no whitespace at either end |
| ContentFetch.AuthorNameIsTrimmed | src/app/services/linkedin-content-fetch.service.ts:239-253 | the author name is never empty and has no whitespace at either end |
| ContentFetch.BasicComments | src/app/services/linkedin-content-fetch.service.ts:286-311 | one comment per comment element, each by "Anonymous" with zero reactions |
| ContentFetch.AnalyzedPosts | src/app/services/linkedin-content-fetch.service.ts:99-111 | one post per post element |
| ContentFetch.AnalyzeContent | src/app/services/linkedin-content-fetch.service.ts:76-112 | the document is pruned and then stripped in place, and the posts are those built from the post elements |
| ContentFetch.AnalyzedPostsEntries | src/app/services/linkedin-content-fetch.service.ts:99-111 | post k is built from element k, with the uuid draws that follow those of the posts before it |
| ContentFetch.AnalyzedPostsWellFormed | src/app/services/linkedin-content-fetch.service.ts:100-110 | every post carries only valid addresses, distinct normalised phones, a non-empty author name, one comment per comment text and zero per-type reactions |
| ContentFetch.PostIdsDistinct | src/app/services/linkedin-content-fetch.service.ts:102 | with an injective uuid source, no two posts share an id |
| HomePage.KeptEmails | src/app/page.tsx:90-98 | no more addresses kept than matched |
| HomePage.KeptEmailsMembers | src/app/page.tsx:90-98 | a match is kept exactly when it passes the five tests, in match order |
| HomePage.KeptIsNonEmpty | src/app/page.tsx:96 | a kept match is non-empty |
| HomePage.FindEmailsEmptyIff | src/app/page.tsx:67-99 | the joined string is empty exactly when no match is kept, so the page saves exactly when some match survives |
| HomePage.FindEmailsSplitsBack | src/app/page.tsx:68-99 | splitting the joined matches at ", " gives back exactly the kept matches |
| HomePage.ShortLocalPartDropped | src/app/page.tsx:96 | a one-letter local part is dropped |
| HomePage.FindPhoneNumbers | src/app/page.tsx:102-123 | the phone list of the content service, joined with ", " |
| HomePage.TitleOf | src/app/page.tsx:51 | the title never grows |
| HomePage.SourceOf | src/app/page.tsx:71 | the source is never empty: the cleaned title, or "Unknown Source" |
| HomePage.BareTitleIsUnknownSource | src/app/page.tsx:51-71 | a page titled only "| LinkedIn" is saved as "Unknown Source" |
| HomePage.ParseContent | src/app/page.tsx:42-84 | empty source does nothing; otherwise the extracted data is shown, and when an address is found the split list is saved under the shared key and the stored list is read back; with no address nothing is written |

## Left out

- Parsing HTML and running CSS selectors: the texts and attribute values the selectors return are inputs (`PostView`, `PageView`). The sanitised document is a tree of values. Element identity and aliasing between a node list and the tree are not modelled.
- `analyzeContent`'s sanitisation is modelled on the document, but the post elements' query results are given separately. The model does not tie them to the sanitised tree.
- Scanning text with the page's e-mail and phone regexes: their matches are inputs. `HomePage.FindEmailsSplitsBack` assumes matches contain only the e-mail regex's characters.
- `crypto.randomUUID`, `Date.now`, `new Date()`: parameters (`uuid`, `clock`).
- `JSON.stringify`/`JSON.parse`: a blob is a list of records or unparsable. A blob that parses to a JSON value other than an array (such as "null" or "{}") is treated as unparsable. In the source, `getStoredEmails` returns that value as it is; `deleteEmail` then throws at `.filter` and returns false without writing, where the model writes [] and returns true. `EmailStore.DeleteEmailOverwritesUnparsable` covers only blobs that `JSON.parse` rejects.
- nodemailer: the outcome of the k-th send is a parameter. `setTimeout` is a `Pause` effect. `process.env` and the `from` address are left out. So are the PDF bytes (`pdfExtractor`) and the HTML template; only whether the PDF could be read is modelled.
- `req.json()`: the `posts` field is an input, None when the body does not parse or holds no array. Entries that are not `StoredPost` objects are not modelled.
- Console logging, React state, the UI, the loading flag and the `useEffect` that loads the stored e-mails.
- ContentFetch.BasicReactions: `parseInt` is read as exact integer arithmetic. A count above 2^53 would lose precision in the source.
- `extractPostedDate` and the job-listing helpers (`isJobListing`, `extractJobInfo` and its extractors) are never called and are left out.
- The singleton `getInstance` and the service's private constructor are left out: the service is stateless apart from its validator.
- EmailValidation.CleanIdempotent: holds only for input without line terminators. `EmailValidation.CleanNotIdempotentAcrossLines` shows why.
- `src/services/linkedin-content-fetch.service.ts` and `src/app/services/email-validation.service.ts` are not part of this model. The types and the validator named above stand in for them.
- A contact whose `author` is present but has no string `name` is not modelled: `author` is either absent or a full `Author`.
