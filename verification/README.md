# A verified model of the S3 gateway

The gateway keeps users, access keys, buckets and objects in four SQLite tables behind one storage trait, and serves S3
and an admin interface over it. This project models the parts where the answer is not obvious from one function body,
and proves what they promise:

- **Listing.** One pass over sorted rows rolls keys up at a delimiter and cuts pages. It is proved to show exactly a page
  of the sorted set of entries, and a client that follows the markers is proved to see that whole set once.
- **Chunked uploads.** The `aws-chunked` decoder accepts exactly the bodies whose chunks continue the signature chain from
  the request's signature and that end in one of three ways; what the encoder writes decodes back, and no proper prefix
  is accepted before the final header. The last signature binds every chunk before it.
- **Canonical forms and parsers.** The canonical path and query of Signature Version 4 are complete invariants of what
  they encode, and each is the one text in a given normal form; the `Authorization` header, ranges, permission lists,
  user ids and the multi-delete document each have an inverse or an independent meaning.
- **The store as a state machine.** Each driver call is one atomic step. The access key index is the inverse of the
  records in every reachable state; emails, bucket limits, purges, user removal and user listing are followed over whole
  runs.

Strings are sequences of bytes (`char` values), compared bytewise. The code that updates state in place is modelled by
classes (`SqliteDriver.Driver`, `Users.UserCaps`) and methods with loops; each method's postcondition equates its result
and the new state with a function of the old one, and the theorems are about those functions. SHA-256 and HMAC are
arbitrary functions passed as a parameter (`Signing.Crypto`); clocks, random ids and generated keys are parameters.

| file | what it models |
|---|---|
| `Rgw`, `Text`, `Order`, `Entities` | results, string operations of the Rust library, bytewise order and ORDER BY, ids and records |
| `TextForms`, `Utf8` | what the string operations accept and return, character by character |
| `Listing`, `ListRuns`, `ListingContents` | `list_page`, its specification, page runs, the V1 and V2 handlers, what a listing holds |
| `Signing`, `Chunked`, `ChunkChain`, `ChunkMeaning`, `ChunkCoding` | chunk signatures, the decoder, exactly what it accepts, the encoder and its inverse |
| `ChunkHeaders`, `ChainBinding` | header lines, and what one signature says about the chunks before it |
| `Canonical`, `CanonicalForm` | canonical path and query, and which text they are |
| `Authorization`, `AuthorizationForm` | the `Authorization` header, and exactly which headers parse |
| `DeleteRequest`, `DeleteTree`, `DeletePrefix` | the multi-delete event machine, the meaning of a document, documents that stop early |
| `Users`, `CapsMeaning`, `Tables`, `SqliteDriver` | records, capability texts, the tables, the driver |
| `Ranges`, `ObjectReads`, `RangeForms` | byte ranges, GET and HEAD, and which bytes a header serves |
| `BucketPaging`, `AdminBuckets`, `AdminUsers` | bucket paging, bucket and user operations of the admin layer |
| `AdminRuns`, `AdminFields`, `AdminKeys`, `UserRemoval` | runs of admin operations, the record each leaves, access keys, removal |
| `S3Buckets`, `BucketNames`, `S3Identity`, `UserListing` | the bucket limit, names and answers, authenticated users, user listing |

## Where the code does less than its documentation says

Each of these is stated with the exact condition under which the promise holds.

- `purge_objects` says it deletes every object. An object named `""` is never listed, because no marker lies below it, so
  it stays and the bucket cannot be removed (`AdminBuckets.BucketRemoveMeaning`). Only a direct caller of the driver can
  store one (`AdminBuckets.NamelessWitness`): the object route `/{bucket}/{*key}` has no empty key
  (`crates/rgw-rest-s3/src/lib.rs:67`).
- Bucket paging resumes after a name. It loses buckets exactly when a page boundary falls between two buckets of the same
  name in different tenants (`BucketPaging.RunComplete`; `FINDINGS.md:135-139` knows of it), so removing a user with
  purge then leaves buckets behind (`UserRemoval.PurgeRemoval`). Here, too, only a direct caller of the driver makes
  such buckets: S3 creates all of them in the empty tenant (`crates/rgw-rest-s3/src/bucket.rs:75`).
- A user id whose string form starts with `$` does not survive being read back. Modifying such a user stores a copy under
  another id, which duplicates the email (`AdminRuns.EmailUniqueness`). If the user holds a key, the store refuses what
  passed every check, because the key index still names the old row (`AdminKeys.PreparedStores`); the check for a free
  key or email lets such an owner pass for the user without the `$` (`AdminKeys.KeyFreeExactly`,
  `AdminKeys.EmailFreeExactly`); and removing such a user's key does not take it away (`AdminKeys.KeyRemoved`,
  `AdminKeys.RemovedKeyStays`). A page of users that ends on one may resume elsewhere, or go round for ever
  (`UserListing.RunListsAllUsers`, `UserListing.Stuck`, `UserListing.CycleExample`).
- A record is reported as stored, but it loads back as reported only when its id is canonical
  (`AdminRuns.ReportedIsLoaded`).
- A request acts as the record its access key leads to, so most ids that are not canonical when given are canonical by
  then: `$a$b` authenticates as `a$b` (`S3Identity.OneDollarHeals`). A user whose row key starts with one `$` and holds
  another stays with an id that is not canonical, and cannot delete the bucket they have just created unless they are a
  system or admin user (`S3Identity.CreatorDeletes`); the text `$$a$b` makes one (`S3Identity.TwoDollarsFail`).
- The multi-delete parser never asks whether every element was closed. A document that stops early counts once an `Object`
  has ended: an open root is taken as ended and an open `Object` as absent (`DeletePrefix.PrefixIsCut`).
- The two range resolvers differ on an inverted range that starts inside the object (`Ranges.ResolversAgree`). The header
  parser never produces one, so GET and HEAD still agree on every header (`ObjectReads.Head`, `ObjectReads.Get`).
- The decoder accepts a body that stops right after the final chunk's header line, and one with a blank line and a further
  CRLF (`ChunkCoding.EncodedPrefix`, `ChunkMeaning.DecodeMeaning`).

## Model

| member | source | states |
|---|---|---|
| Listing.PassIsPage | crates/rgw-sal-sqlite/src/lib.rs:246-291 | the pass over the selected rows, comparing only with the last prefix and the marker, yields the first `max` elements of the sorted set of entries above the marker, is truncated exactly when more remain, and ends at the last one shown |
| Listing.ListPage | crates/rgw-sal-sqlite/src/lib.rs:246-291 | the loop with its early stop computes what passing over all rows does; with `Listing.PassIsPage` and `ListingContents.PageHolds` that is the page of the names and prefixes `ListingContents.ListingHolds` describes |
| Listing.EntryStable | crates/rgw-sal-sqlite/src/lib.rs:259-266 | every name that starts with a common prefix rolls up to that very prefix, also for delimiters that overlap themselves |
| Listing.EntryMonotone | crates/rgw-sal-sqlite/src/lib.rs:267-273 | roll-up is monotone, so the names that share a prefix are contiguous in name order, as the comment in the pass relies on |
| Listing.SelectionKeepsEntries | crates/rgw-sal-sqlite/src/lib.rs:539-547 | the query's filter on marker and prefix loses no entry above the marker |
| Order.LessIs | crates/rgw-sal-sqlite/src/lib.rs:539-547 | one name lies below another exactly when, at the first place where they differ, it ends or has the lower byte |
| ListRuns.PageAdvances | crates/rgw-sal/src/lib.rs:147-153 | a truncated page's marker leaves strictly fewer entries to list |
| ListRuns.RunIsWholeListing | crates/rgw-sal/src/lib.rs:147-153 | following the markers ends, and the pages concatenated are the whole listing above the start marker, whatever the page size |
| ListRuns.WholeListingMeaning | crates/rgw-sal/src/lib.rs:147-153 | that listing is: each common prefix some key rolls up to, and each key that rolls up to none, above the marker, once and in order; `ListingContents.ListingHolds` says the same without the roll-up function |
| ListRuns.FallbackAgrees | crates/rgw-rest-s3/src/list.rs:157-170 | on every page of the driver the larger of the last key and the last prefix is the next marker, so the fallback never changes it |
| ListRuns.ParseMaxKeys | crates/rgw-rest-s3/src/list.rs:143-154 | 1000 when absent; otherwise the smaller of the number and 1000, and an error exactly for text that is no number or a negative one |
| ListRuns.ClientSeesWholeListing | crates/rgw-rest-s3/src/list.rs:173-235 | a client paging with `marker`, or with a continuation token that wins over `start-after`, sees the whole listing exactly when it asks for pages of at least one key or there is nothing to see |
| ListingContents.ListingHolds | crates/rgw-sal-sqlite/src/lib.rs:253-285 | the whole listing, in terms of the stored names alone: its common prefixes are exactly the texts above the marker that are a name with the prefix cut behind the first delimiter at or after the prefix; its objects are exactly the names above the marker with the prefix and no delimiter there, each once, in name order, with their metadata |
| ListingContents.PageHolds | crates/rgw-sal-sqlite/src/lib.rs:246-291 | a page holds the first `max` of those, 1000 where 0 is asked for, counted over objects and prefixes together, and is truncated exactly when there are more |
| ListingContents.RunsStart | crates/rgw-rest-s3/src/list.rs:173-235 | a run starts behind `marker`; behind the continuation token, with or without `start-after`; else behind `start-after`; else at the beginning |
| Signing.SignatureMatchesIs | crates/rgw-auth/src/sigv4.rs:313-319 | a supplied signature matches exactly when it is a case variant of the hex of the computed MAC |
| Signing.ChunkSignature | crates/rgw-auth/src/sigv4.rs:280-309 | a chunk signature is 64 lower-case hex digits; what is signed is stated by `ChainBinding.ChunkText` |
| ChainBinding.ChunkText | crates/rgw-auth/src/sigv4.rs:278-286 | the text signed for a chunk is six lines: `AWS4-HMAC-SHA256-PAYLOAD`, date, scope, previous signature, hash of nothing, hash of the chunk; the signature is the hex of its code under the signing key |
| ChainBinding.ChainBinds | crates/rgw-auth/src/chunked.rs:63-87 | two chains from the same signed request that end with the same signature have the same chunks, however many; or the lemma returns two different texts among those hashed or signed with the same digest |
| ChainBinding.HeadersCarry | crates/rgw-auth/src/chunked.rs:77-87 | every header of an accepted chain carries the signature over all data up to its own |
| ChainBinding.UploadsBind | crates/rgw-auth/src/chunked.rs:63-87 | so two accepted uploads whose zero chunks carry the same signature have the same chunks and payload, or two texts collide |
| ChunkHeaders.HexDigits | crates/rgw-auth/src/sigv4.rs:307-309 | the hex of a digest has two digits a byte, the high one first, in lower case |
| ChunkHeaders.HeaderSizeIs | crates/rgw-auth/src/chunked.rs:68-72 | a header announces a size exactly when its text before the first semicolon, trimmed, is a hex number of 64 bits in either case behind at most one plus sign |
| ChunkHeaders.HeaderSignatureIs | crates/rgw-auth/src/chunked.rs:77-80 | a header carries a signature exactly when its extension, trimmed, is `chunk-signature=` and that signature |
| ChunkHeaders.EncodedChunkIs | crates/rgw-auth/src/chunked.rs:134-144 | what the encoder writes for one chunk, character by character |
| Utf8.ValidUtf8Is | crates/rgw-auth/src/chunked.rs:67 | the validity the decoder asks of a line holds exactly of the encodings of sequences of Unicode scalar values (section 3 of RFC 3629) |
| Chunked.DecodeAwsChunked | crates/rgw-auth/src/chunked.rs:57-116 | the two loops compute the recursive decoder |
| Chunked.ChunkLines | crates/rgw-auth/src/chunked.rs:65-97 | the chunk loop: payload and position, each turn moving the position forward |
| Chunked.TrailerLines | crates/rgw-auth/src/chunked.rs:99-111 | the trailer loop: the trailers in order, and the position after them |
| Chunked.ReadChunk | crates/rgw-auth/src/chunked.rs:66-89 | a chunk read from a position ends beyond it and within the body |
| ChunkMeaning.DecodeMeaning | crates/rgw-auth/src/chunked.rs:50-116 | a body decodes to a payload and trailers exactly when it is non-empty chunks framed by CRLF and a final empty one, every header one line that announces its chunk's length and carries a case variant of the signature computed from the one before and that chunk, starting at the seed; then trailer lines, if declared, and nothing, a CRLF or two; the payload is the chunks' concatenation and no longer than the body, the trailers are the lines' names, lower-cased and trimmed, and trimmed values, in order |
| ChunkChain.TailWithoutTrailers | crates/rgw-auth/src/chunked.rs:97-116 | where no trailers were declared, what may follow the zero chunk's header is nothing, a CRLF or two CRLFs, and nothing else |
| ChunkCoding.EncodeSigned | crates/rgw-auth/src/chunked.rs:134-144 | the encoder's loop appends each chunk, then the empty one, under the chained signature |
| ChunkCoding.EncodedPrefix | crates/rgw-auth/src/chunked.rs:57-116 | of all prefixes of an encoded body only two are accepted: the whole, and the one without its last CRLF; both decode to the chunks' concatenation |
| ChunkCoding.RoundTrip | crates/rgw-auth/src/chunked.rs:134-144 | decoding what the encoder writes for any non-empty chunks returns their concatenation and no trailers, with or without checking signatures |
| Text.ParseHexPrintHex | crates/rgw-auth/src/chunked.rs:72 | parsing the hex length the encoder prints returns the length |
| TextForms.TrimIs | crates/rgw-auth/src/chunked.rs:72 | trimming finds the one core without white space at its ends around which there is only white space, of six characters |
| TextForms.LowerLetters | crates/rgw-auth/src/chunked.rs:86 | lower-casing maps each of the 26 letters to its own and leaves every other character |
| TextForms.ParseI64Is | crates/rgw-rest-s3/src/list.rs:146-155 | the numbers `max-keys` may be: decimal digits behind at most one sign, of 64 bits |
| Canonical.UriEncodeInto | crates/rgw-auth/src/sigv4.rs:164-172 | the encoding loop appends the percent-encoding of the bytes, which `CanonicalForm.EncodingIsNormalForm` characterises |
| Canonical.DecodeEncode | crates/rgw-auth/src/sigv4.rs:159-172 | percent-decoding undoes the encoding, with or without encoding `/` (sections 2.1 and 2.3 of RFC 3986) |
| CanonicalForm.EncodingIsNormalForm | crates/rgw-auth/src/sigv4.rs:159-180 | some text is the encoding of some bytes exactly when it decodes to them and is normal: each character is unreserved, is a slash where those are kept, or belongs to a `%` with two digits in `0-9A-F` for a byte that may not stand for itself |
| CanonicalForm.PercentDecodes | crates/rgw-auth/src/sigv4.rs:174-180 | decoding by pieces: `%` and two hex digits of either case give a byte, any other character itself, a `%` without them too |
| Canonical.CanonicalUriComplete | crates/rgw-auth/src/sigv4.rs:175-189 | two paths canonicalise alike exactly when they decode to the same bytes, no path being the root; twice is once |
| CanonicalForm.CanonicalUriIs | crates/rgw-auth/src/sigv4.rs:182-189 | the canonical path is the one normal text that decodes as the path does, or to the root where there is none |
| Canonical.BuildCanonicalQuery | crates/rgw-auth/src/sigv4.rs:193-214 | the collecting, sorting and appending loops build the canonical query, which `CanonicalForm.CanonicalQueryIs` characterises |
| Canonical.CanonicalQueryComplete | crates/rgw-auth/src/sigv4.rs:191-214 | two query strings canonicalise alike exactly when they carry the same multiset of decoded name and value pairs, `+` being a space |
| Canonical.CanonicalQueryIdempotent | crates/rgw-auth/src/sigv4.rs:191-214 | the canonical query carries the same pairs, and canonicalising it changes nothing |
| CanonicalForm.QueryMeans | crates/rgw-auth/src/sigv4.rs:194-202 | what a query carries: the pairs of its parts between `&`, each name up to its first `=`, decoded with `+` as a space |
| CanonicalForm.CanonicalQueryIs | crates/rgw-auth/src/sigv4.rs:191-214 | the canonical query is the one text that lists `name=value` between `&`, in normal spelling, ordered by name and then value, and decodes to exactly the pairs the query carries |
| Authorization.ParseAuthorization | crates/rgw-auth/src/sigv4.rs:72-140 | the loop that fills the three field slots computes the parse |
| Authorization.ParseFormat | crates/rgw-auth/src/sigv4.rs:48-140 | formatting well-formed parts with the fields in any order and any white space after the commas, and parsing, returns the parts; key ids may contain slashes |
| Authorization.ParsedIsWellFormed | crates/rgw-auth/src/sigv4.rs:72-140 | whatever parses is well formed, so formatting and parsing it again changes nothing |
| AuthorizationForm.ParseMeans | crates/rgw-auth/src/sigv4.rs:72-140 | a header parses to given parts exactly when it is `AWS4-HMAC-SHA256`, a blank or a tab, and fields between commas that are blank or one of `Credential=`, `SignedHeaders=` and `Signature=`, each once, whose trimmed values are a key id with an eight-digit date, a region, `s3` and `aws4_request`; ascending header names without upper case, `host` among them; and 64 hex digits; anything else is refused as malformed |
| DeleteRequest.ParseDeleteRequest | crates/rgw-rest-s3/src/xml.rs:192-274 | the event loop folds the machine's steps |
| DeleteRequest.EntityIs | crates/rgw-rest-s3/src/xml.rs:220-235 | the five predefined references and what each stands for, and no others |
| DeleteRequest.IsTrueIs | crates/rgw-rest-s3/src/xml.rs:264 | `Quiet` holds exactly for the four letters of `true`, each in either case, white space around them left out |
| DeleteTree.MachineIsMeaning | crates/rgw-rest-s3/src/xml.rs:192-274 | over the events of every well-formed document the machine gives what a recursive reading of the tree gives, errors included: own text is what follows the last child, only exact paths count, the last `Key` wins |
| DeleteTree.RenderedRequestParses | crates/rgw-rest-s3/src/xml.rs:180-274 | a request of 1 to 1000 objects, rendered with markup characters as references (section 4.6 of XML 1.0), parses back to itself with spaces intact; any other number is refused |
| DeletePrefix.PrefixIsCut | crates/rgw-rest-s3/src/xml.rs:207-273 | a document whose events stop anywhere parses as the document cut there: a root element still open counts as ended, a child of it still open as absent, and a bad reference among the events seen fails it |
| DeletePrefix.WholeIsUncut | crates/rgw-rest-s3/src/xml.rs:207-273 | cut after its last event a document is itself |
| Entities.UserIdRoundTrip | crates/rgw-types/src/user.rs:36-57 | an id survives its string form exactly when its tenant has no `$` and, for an empty tenant, its id has none |
| Entities.UidTextRoundTrip | crates/rgw-types/src/user.rs:36-57 | a string survives being read as an id exactly when it does not start with `$`; otherwise the `$` is lost |
| Entities.ParsedCanonical | crates/rgw-types/src/user.rs:36-42 | text read as an id gives a canonical one exactly when it does not both start with `$` and hold another |
| Users.ParseCapPerm | crates/rgw-types/src/user.rs:122-137 | the accumulating loop computes the permission parse |
| Users.PermRoundTrip | crates/rgw-types/src/user.rs:122-148 | a permission set prints and parses back, the empty one excepted, which is refused |
| Users.UserCaps.Add | crates/rgw-types/src/user.rs:183-191 | adds the permissions to the type's, or refuses an unknown type and changes nothing |
| Users.UserCaps.Remove | crates/rgw-types/src/user.rs:194-201 | takes the permissions away, and the type with them when none is left |
| Users.UserCaps.AddFromString | crates/rgw-types/src/user.rs:203-213 | adds the items in turn; a bad item is an error that leaves what was added before it |
| Users.CapsRoundTrip | crates/rgw-types/src/user.rs:228-255 | the list form reads back exactly when every entry has a valid type and some permission, and is refused otherwise |
| Users.AddItemsKeepsPrintable | crates/rgw-types/src/user.rs:203-213 | text never grants an unknown type or an empty permission set |
| CapsMeaning.ParsePermIs | crates/rgw-types/src/user.rs:121-137 | a permission text is taken exactly when each of its parts between commas, trimmed, is `read`, `write` or `*`; it grants a bit exactly when some part says so |
| CapsMeaning.PermPrints | crates/rgw-types/src/user.rs:139-148 | the three non-empty permission sets print as `*`, `read` and `write` |
| CapsMeaning.CapTypes | crates/rgw-types/src/user.rs:150-170 | the 18 capability types |
| CapsMeaning.AddItemsMean | crates/rgw-types/src/user.rs:203-213 | a capability text is taken exactly when every item is blank or a known type, `=` and permissions; a type then has a permission exactly when it had it or some item grants it |
| Users.RecordRoundTrip | crates/rgw-types/src/user.rs:257-282 | a record reads back equal exactly when its id is canonical and its capabilities have valid types and permissions |
| SqliteDriver.Driver.LoadUser | crates/rgw-sal-sqlite/src/lib.rs:300-303 | the record under the id's string form, or `NoSuchUser` |
| SqliteDriver.Driver.LoadUserByAccessKey | crates/rgw-sal-sqlite/src/lib.rs:306-316 | the record the key index points to |
| SqliteDriver.Driver.LoadUserByEmail | crates/rgw-sal-sqlite/src/lib.rs:319-328 | the first record by id with that email |
| SqliteDriver.Driver.StoreUser | crates/rgw-sal-sqlite/src/lib.rs:332-374 | the record and its index rows replace the old ones, unless it exists and must not, or a key belongs to another user, and then nothing changes |
| SqliteDriver.Driver.RemoveUser | crates/rgw-sal-sqlite/src/lib.rs:378-387 | the record and, by cascade, its index rows go; an unknown user changes nothing |
| SqliteDriver.Driver.ListUsers | crates/rgw-sal-sqlite/src/lib.rs:390-403 | the ids of the first rows after the marker, in order |
| SqliteDriver.Driver.CreateBucket | crates/rgw-sal-sqlite/src/lib.rs:406-431 | a new row, unless its name in the tenant or its id is taken, and then nothing changes |
| SqliteDriver.Driver.LoadBucket | crates/rgw-sal-sqlite/src/lib.rs:434-449 | the bucket of that name and tenant |
| SqliteDriver.Driver.ListBuckets | crates/rgw-sal-sqlite/src/lib.rs:452-485 | the first rows after the marker name, in order of name and tenant, whether more remain, and the last name |
| SqliteDriver.Driver.RemoveBucket | crates/rgw-sal-sqlite/src/lib.rs:488-511 | the row goes, unless an object has its id; any refusal leaves the tables as they were |
| SqliteDriver.Driver.ListObjects | crates/rgw-sal-sqlite/src/lib.rs:535-554 | a page of the bucket's sorted entries, not merely what the pass computes |
| SqliteDriver.Driver.HeadObject | crates/rgw-sal-sqlite/src/lib.rs:557-560 | the object's metadata, or which of bucket and key is missing |
| SqliteDriver.Driver.GetObject | crates/rgw-sal-sqlite/src/lib.rs:563-597 | metadata, resolved range and the bytes cut by `substr` |
| SqliteDriver.Driver.PutObject | crates/rgw-sal-sqlite/src/lib.rs:603-645 | the object's row is written, in an existing bucket only, and its metadata is returned with the owner as given; a refusal changes nothing |
| SqliteDriver.Driver.DeleteObject | crates/rgw-sal-sqlite/src/lib.rs:649-664 | the row goes, or the missing bucket or key is reported and nothing changes |
| Tables.ReachableIsValid | crates/rgw-sal-sqlite/src/lib.rs:24-58 | in every state any interleaving of driver calls reaches, the key index is the inverse of the records' key maps, records carry their row's id and email, bucket ids are unique, and every object lies in a bucket under its own name with its payload's size |
| Tables.LookupByKeyFindsHolder | crates/rgw-sal-sqlite/src/lib.rs:306-316 | a key id belongs to at most one user, and looking it up reads that user's record, or reports `NoSuchUser` when there is none |
| Tables.PutThenGet | crates/rgw-sal-sqlite/src/lib.rs:563-645 | a stored object reads back with its bytes and metadata, and as the put reported it exactly when the owner's id is canonical; no other object changes |
| Tables.DeleteThenHead | crates/rgw-sal-sqlite/src/lib.rs:557-664 | a deleted object is gone, no other changes, and storing it again gives the tables storing it at first would have |
| Tables.CreateThenLoad | crates/rgw-sal-sqlite/src/lib.rs:406-511 | a created bucket loads back equal exactly when its owner's id is canonical, and removing it while empty undoes the creation |
| Ranges.ResolveSelects | crates/rgw-sal-sqlite/src/lib.rs:225-241 | the driver resolves to exactly the bytes the range selects (section 14.1.2 of RFC 9110), inside the object, and refuses exactly the ranges that select none |
| Ranges.ResolversAgree | crates/rgw-rest-s3/src/range.rs:37-49 | the two resolvers agree on a range and a size exactly when the range is not an inverted one starting inside the object |
| Ranges.HeadersAgree | crates/rgw-rest-s3/src/range.rs:10-49 | on every range a header can give the two resolvers agree |
| RangeForms.ParseRangeIs | crates/rgw-rest-s3/src/range.rs:8-32 | a header is read as a range exactly when it is `bytes=`, digits, a dash and digits, white space anywhere between them, the digits being numbers of 64 bits that do not descend, one of them possibly missing |
| RangeForms.PrintedRanges | crates/rgw-rest-s3/src/range.rs:8-32 | for all 64-bit numbers, the printed `a-b` is read as that span exactly when `a` is not above `b`, `a-` as everything from there, `-n` as the last `n`, and `-` as nothing |
| Ranges.RangedBody | crates/rgw-sal-sqlite/src/lib.rs:569-594 | the 1-based slice is exactly the bytes from start to end, as many as the reported length |
| ObjectReads.Head | crates/rgw-rest-s3/src/object.rs:215-237 | HEAD, which resolves the range itself, replies as GET does for every header; which bytes a header asks for are stated by `RangeForms.SuffixServed` and `RangeForms.SpanServed` |
| ObjectReads.Get | crates/rgw-rest-s3/src/object.rs:215-247 | GET replies the same, and its body is exactly the selected bytes, as long as the reported `Content-Length` |
| RangeForms.SuffixServed | crates/rgw-rest-s3/src/object.rs:215-247 | for `bytes=-n` the reply and the body of a GET are those of the last `n` bytes, or of all where there are fewer; 416 where `n` is 0 or the object empty |
| RangeForms.SpanServed | crates/rgw-rest-s3/src/object.rs:215-247 | for `bytes=a-` and `bytes=a-b` they are those of the bytes from `a` to the end or to `b`; 416 where `a` lies behind the end |
| RangeForms.WholeServed | crates/rgw-rest-s3/src/object.rs:215-247 | without a header that reads as a range they are those of the whole object |
| BucketPaging.RunComplete | crates/rgw-sal-sqlite/src/lib.rs:452-485 | a run of bucket pages shows every row after the marker exactly when no page boundary falls between two rows of one name |
| BucketPaging.CleanMeaning | crates/rgw-sal-sqlite/src/lib.rs:149-151 | with the default page size those boundaries are at the rows 1000, 2000 and so on |
| BucketPaging.PagesAscend | crates/rgw-sal-sqlite/src/lib.rs:452-485 | a run shows rows in order and none twice, whatever the names |
| BucketPaging.ListedIsAll | crates/rgw-admin-ops/src/bucket.rs:22-37 | a run from the start shows every bucket exactly when the boundaries are clean and none has the empty name |
| BucketPaging.DistinctRunComplete | crates/rgw-admin-ops/src/bucket.rs:22-37 | with distinct non-empty names it shows them all, in order |
| BucketPaging.UpToCounts | crates/rgw-rest-s3/src/service.rs:17-39 | stopping once `limit` rows are in hand does not change whether there are that many |
| AdminBuckets.ListAllBuckets | crates/rgw-admin-ops/src/bucket.rs:22-37 | the loop ends with the buckets of all pages; its "did not advance" error is never returned |
| AdminBuckets.Purge | crates/rgw-admin-ops/src/bucket.rs:40-58 | deleting while paging ends with every named object of the bucket gone and nothing else changed; its "did not advance" error is never returned |
| AdminBuckets.PlainPage | crates/rgw-sal-sqlite/src/lib.rs:246-291 | without prefix and delimiter a page holds only keys above the marker, and every key it leaves out lies above its last one |
| AdminBuckets.RemoveOne | crates/rgw-admin-ops/src/bucket.rs:76-83 | the operation's result and new state, with and without purge |
| AdminBuckets.BucketRemoveMeaning | crates/rgw-admin-ops/src/bucket.rs:74-83 | with purge, removal succeeds exactly when the bucket exists and holds no object with the empty name, and then removes exactly the bucket and its contents |
| AdminBuckets.NamelessWitness | crates/rgw-admin-ops/src/bucket.rs:40-83 | two driver calls, a bucket and an object with the empty name in it, give a bucket that removal with purge refuses |
| AdminBuckets.RemoveAllMeaning | crates/rgw-admin-ops/src/user.rs:233-236 | purging and removing a list of distinct buckets removes exactly them and their contents; or it stops with `BucketNotEmpty` at the first that holds an object with the empty name, the buckets before it gone with their contents, that one without its other objects, the rest as they were |
| AdminUsers.EnsureEmailFree | crates/rgw-admin-ops/src/user.rs:72-78 | refuses an email whose first holder reads as another id |
| AdminKeys.EmailFreeExactly | crates/rgw-admin-ops/src/user.rs:72-78 | an email passes exactly when nobody holds it, or its first holder's row key reads as the id asked for |
| AdminUsers.EnsureKeyFree | crates/rgw-admin-ops/src/user.rs:80-86 | refuses a key id whose holder reads as another id |
| AdminKeys.KeyFreeExactly | crates/rgw-admin-ops/src/user.rs:80-86 | a key id passes exactly when nobody holds it, or its holder's row key reads as the id asked for |
| AdminUsers.UnusedAccessKey | crates/rgw-admin-ops/src/user.rs:88-98 | tries at most ten candidates |
| AdminUsers.UnusedKeyMeaning | crates/rgw-admin-ops/src/user.rs:88-98 | the key generated is the first candidate that no user holds |
| AdminUsers.PutKey | crates/rgw-admin-ops/src/user.rs:100-124 | sets or replaces one key of the record, generating the missing halves only when asked to |
| AdminUsers.UserCreate | crates/rgw-admin-ops/src/user.rs:147-176 | the record is prepared, checks in the source's order, and stored only if the user is new; its fields are stated by `AdminFields.CreateLoads` |
| AdminUsers.UserModify | crates/rgw-admin-ops/src/user.rs:186-219 | the loaded record with the given fields changed is stored |
| AdminUsers.KeyCreate | crates/rgw-admin-ops/src/user.rs:257-271 | the loaded record with the key set is stored |
| AdminUsers.KeyRemove | crates/rgw-admin-ops/src/user.rs:275-286 | the loaded record without the key is stored, or the key is not the user's |
| AdminUsers.CapsAdd | crates/rgw-admin-ops/src/user.rs:298-307 | folding over the parsed capabilities adds each one's permissions to what is held, pointwise |
| AdminUsers.CapsRemove | crates/rgw-admin-ops/src/user.rs:310-319 | folding over them takes each one's permissions from what is held, dropping types left with none |
| AdminFields.CreateLoads | crates/rgw-admin-ops/src/user.rs:147-176 | the record that loads after a create, field by field: the flags hold exactly where given as true, the bucket limit is the one given or 1000, name, email and creation time are as asked, a permission is held exactly where the text grants it, and there is no key or one, its halves given or generated |
| AdminFields.ModifyLoads | crates/rgw-admin-ops/src/user.rs:186-219 | the record that loads after a modify: each field as given, or as it was where none was; permissions, creation time and other keys as they were |
| AdminFields.KeyCreateLoads | crates/rgw-admin-ops/src/user.rs:257-271 | after a key is created one key is set, under the id and secret given or generated, and no other field changed |
| AdminFields.KeyRemoveLoads | crates/rgw-admin-ops/src/user.rs:275-286 | after a key is removed that key is gone and no other field changed |
| AdminFields.CapsAddLoads | crates/rgw-admin-ops/src/user.rs:298-307 | after capabilities are added a permission is held exactly where it was or the text grants it, and no other field changed |
| AdminFields.CapsRemoveLoads | crates/rgw-admin-ops/src/user.rs:310-319 | after they are removed a permission is held exactly where it was and the text does not grant it, and no other field changed |
| AdminFields.CreateAnswers | crates/rgw-admin-ops/src/user.rs:147-176 | a create is refused exactly for a missing id or name, half a key or a bad capability text, then for the email, then for the key |
| AdminFields.ModifyAnswers | crates/rgw-admin-ops/src/user.rs:186-219 | a modify is refused exactly for a missing id or half a key, then for an unknown user, then for an empty name, then for the email, then for the key |
| AdminFields.KeyCreateAnswers | crates/rgw-admin-ops/src/user.rs:257-271 | a key is created exactly for a known user, under an id given and free or generated, with a secret given or generated; a taken id is reported before a missing secret |
| AdminFields.KeyRemoveAnswers | crates/rgw-admin-ops/src/user.rs:275-286 | a key is removed exactly where the user is known and has it |
| AdminFields.CapsAnswers | crates/rgw-admin-ops/src/user.rs:289-319 | capabilities are added and removed exactly under a text of good items that is not blank, for a known user |
| AdminFields.CommitAnswers | crates/rgw-sal-sqlite/src/lib.rs:332-374 | the store refuses a new user exactly when the id is taken, and any user exactly when another record holds one of the keys; else it stores that record alone |
| AdminUsers.RemoveWithData | crates/rgw-admin-ops/src/user.rs:224-239 | the operation's result and new state, with and without purge |
| AdminRuns.RunsAreSound | crates/rgw-admin-ops/src/user.rs:147-319 | after any run of admin operations and client calls every stored record reads back, with valid capabilities |
| AdminRuns.RunsAreValid | crates/rgw-admin-ops/src/user.rs:147-319 | after any such run the key index agrees with the records and every object has its bucket |
| AdminRuns.ReportedIsLoaded | crates/rgw-admin-ops/src/user.rs:147-319 | the record an operation reports is the one a load then returns exactly when its id is canonical |
| AdminRuns.EmailFindsHolder | crates/rgw-sal-sqlite/src/lib.rs:319-328 | where emails are unique, looking one up reads its holder's record |
| AdminRuns.EmailUniqueness | crates/rgw-admin-ops/src/user.rs:72-78 | over all runs about the given users no two rows hold the same email, exactly when none of their ids in string form starts with `$` |
| AdminRuns.DollarIdDuplicatesEmail | crates/rgw-admin-ops/src/user.rs:186-219 | for every id whose string form does start with `$`, creating the user and renaming it leaves two rows with the email |
| AdminRuns.LateCommitKeepsEmails | crates/rgw-admin-ops/src/user.rs:72-78 | a record checked earlier, on whatever tables, keeps emails unique when it is stored exactly when no other row holds its email by then |
| AdminRuns.InterleavedCreatesShareEmail | crates/rgw-admin-ops/src/user.rs:147-176 | two creations checked before either is stored both succeed and share the email |
| AdminKeys.PreparedStores | crates/rgw-admin-ops/src/user.rs:80-124 | over all runs about the given users, whatever passes the checks is stored, but for the creation of a user that exists, exactly when none of their ids in string form starts with `$` |
| AdminKeys.DollarIdClashesKey | crates/rgw-admin-ops/src/user.rs:186-219 | for every id whose string form does, creating the user with a key and renaming it passes the checks and is refused by the store |
| AdminKeys.RenameClashes | crates/rgw-sal-sqlite/src/lib.rs:332-374 | in every store where such a user holds a key, renaming it ends in `KeyExists` and changes nothing |
| AdminKeys.KeyRemoved | crates/rgw-admin-ops/src/user.rs:275-286 | after a successful removal the index has lost exactly that key and looking it up finds no one, exactly when the user's id in string form does not start with `$` |
| AdminKeys.RemovedKeyStays | crates/rgw-admin-ops/src/user.rs:275-286 | for every id whose string form does, removing the key the user was created with succeeds, and the key still finds a user |
| AdminKeys.KeyCreated | crates/rgw-admin-ops/src/user.rs:257-271 | the key set finds the record reported exactly when its id is canonical, and the index has gained exactly that key for the user exactly when the id in string form does not start with `$` |
| AdminKeys.CreatedKeyStrays | crates/rgw-admin-ops/src/user.rs:257-271 | for every id whose string form starts with `$`, setting a key for a user created without one succeeds and indexes the key under another row |
| UserRemoval.PurgeRemoval | crates/rgw-admin-ops/src/user.rs:221-239 | with purge, removal succeeds exactly when the user loads and no listed bucket holds an object with the empty name; it then leaves the tables without the user, their keys, their buckets and all objects in those, and otherwise unchanged, exactly when the bucket listing was complete; a user that does not load changes nothing |
| UserRemoval.PurgeForgets | crates/rgw-admin-ops/src/user.rs:221-239 | with distinct non-empty bucket names success always means that |
| UserRemoval.FailedPurge | crates/rgw-admin-ops/src/user.rs:221-239 | a purge that fails stops at the first listed bucket with an object of the empty name: those before it are gone with their contents, it has lost its other objects, and all else is as it was, the user and their keys included |
| UserRemoval.PlainRemoval | crates/rgw-admin-ops/src/user.rs:221-239 | without purge the user goes exactly when no bucket with a name is theirs, and a refusal changes nothing |
| S3Buckets.ValidateBucketName | crates/rgw-rest-s3/src/bucket.rs:24-55 | accepts exactly the names of 3 to 63 lower-case letters, digits, dashes and dots that start and end alphanumeric, have no dot beside a dot or a dash, and are not four runs of digits |
| BucketNames.NamesByLabels | crates/rgw-rest-s3/src/bucket.rs:24-55 | a name is valid exactly when it is 3 to 63 characters of labels between dots, each of lower-case letters, digits and dashes with no dash at either end, and not four numbers |
| S3Buckets.ListOwnedBuckets | crates/rgw-rest-s3/src/service.rs:17-39 | the loop ends with the owner's buckets, page by page until the limit is in hand |
| S3Buckets.CreateOverS3 | crates/rgw-rest-s3/src/bucket.rs:58-100 | the operation's result and new state |
| S3Buckets.DeleteOverS3 | crates/rgw-rest-s3/src/bucket.rs:103-107 | only the owner, or a system or admin user, may remove the bucket |
| S3Buckets.DeletionMeaning | crates/rgw-rest-s3/src/bucket.rs:103-107 | a deletion succeeds exactly when the bucket exists in the default tenant, is the requester's to delete and holds no object; then that row alone goes |
| S3Identity.LoadedIdCanonical | crates/rgw-auth/src/lib.rs:152-189 | the id a request carries is what its user's row key reads as; it is canonical exactly when that key does not both start with `$` and hold another |
| S3Identity.CreatorDeletes | crates/rgw-rest-s3/src/perm.rs:19-46 | an authenticated user can delete the bucket they have just created, which undoes the creation, exactly unless their row key is such a one and they are neither a system nor an admin user |
| S3Identity.OneDollarHeals | crates/rgw-types/src/user.rs:36-57 | `$a$b` is not canonical when given and authenticates as the canonical `a$b` |
| S3Identity.TwoDollarsFail | crates/rgw-rest-s3/src/perm.rs:19-46 | `$$a$b` authenticates as an id that is not canonical: the user creates a bucket and is denied its deletion |
| S3Buckets.CountIsExact | crates/rgw-rest-s3/src/bucket.rs:66-71 | the early-stopping count reaches the limit exactly when the user owns that many buckets |
| S3Buckets.CreationMeaning | crates/rgw-rest-s3/src/bucket.rs:58-100 | a creation succeeds exactly for a user below the limit (0 is none), with a valid free name and id; the bucket is then theirs, and a refusal changes nothing |
| S3Buckets.RefusalMeaning | crates/rgw-rest-s3/src/bucket.rs:66-71 | `TooManyBuckets` is the answer exactly when the limit is positive and reached |
| BucketNames.CreationAnswers | crates/rgw-rest-s3/src/bucket.rs:58-100 | the answer to a creation in every case, in the order of the checks; `BucketAlreadyOwnedByYou` exactly for a name whose bucket reads as the requester's |
| BucketNames.DeletionAnswers | crates/rgw-rest-s3/src/bucket.rs:103-107 | the answer to a deletion in every case, in the order of the checks |
| S3Buckets.RunsStayInDefaultTenant | crates/rgw-rest-s3/src/bucket.rs:74-75 | over every run of S3 operations all buckets have a name and the empty tenant |
| S3Buckets.LimitHolds | crates/rgw-rest-s3/src/bucket.rs:62-72 | over every run of creations, deletions and other calls a user limited to m buckets never owns more |
| S3Buckets.LateCreation | crates/rgw-rest-s3/src/bucket.rs:66-83 | a creation checked earlier, on whatever tables, leaves the user within m buckets exactly when they own fewer by then |
| S3Buckets.InterleavedCreationsExceed | crates/rgw-rest-s3/src/bucket.rs:66-83 | two creations checked before either is made both succeed, and a user limited to one bucket owns two |
| UserListing.ListPage | crates/rgw-admin-ops/src/user.rs:241-253 | one id more than the page decides truncation; the page holds the first ids, and its marker is the string form of the last |
| UserListing.UserPageHolds | crates/rgw-admin-ops/src/user.rs:241-253 | a page holds the ids of the first users above the marker, as many as asked for, or 1000 where 0 or more than 1000 are; its marker is the last id written back |
| UserListing.RunListsAllUsers | crates/radosgw-admin/src/main.rs:227-239 | following the pages ends having shown every user after the marker once and in order, exactly when no user lies between a page's last row and its string form |
| UserListing.OrdinaryIsSteady | crates/radosgw-admin/src/main.rs:227-239 | it does when no user's id starts with `$` |
| UserListing.CanonicalIsOrdinary | crates/rgw-types/src/user.rs:49-57 | the string form of a canonical id does not start with `$` |
| UserListing.Stuck | crates/rgw-admin-ops/src/user.rs:241-253 | a page that ends on `$` followed by its own marker hands that marker out again, for ever |
| UserListing.StuckExample | crates/rgw-admin-ops/src/user.rs:241-253 | two users, `$` and `a`, listed one at a time, are such a case |
| UserListing.CycleExample | crates/rgw-admin-ops/src/user.rs:241-253 | with the users `!`, `$` and `a`, listed one at a time, two pages take turns for ever |
| UserListing.EndsByThen | crates/radosgw-admin/src/main.rs:227-239 | a run that ends at all ends within one page more than there are users |
| UserListing.ListAllUsers | crates/radosgw-admin/src/main.rs:229-239 | on every store, what the loop prints if it ends within the given number of pages; given one page more than there are users, no answer means it never ends and any other is what it prints whenever it does: every user after the marker, in order, wherever the boundaries resume, and as the very ids when none starts with `$` |

## Left out

- UserListing.ListAllUsers: watches the loop for a given number of pages, because on some stores it never ends (`UserListing.Stuck`); `UserListing.EndsByThen` says how many are enough to tell.
- SqliteDriver.Driver.ListObjects: requires that rows carry their own names, which `Tables.ReachableIsValid` shows of every reachable state; `GetObject` likewise for sizes, and the operations built on the two.
- S3Buckets.CreationMeaning: for stores whose buckets all have a name and the empty tenant, which is what S3 creation leaves (`S3Buckets.RunsStayInDefaultTenant`); `S3Buckets.CountIsExact` and `S3Buckets.RefusalMeaning` likewise.
- ChunkCoding.RoundTrip: only for encodings whose length fits 64 bits, as every buffer's does.
- ChunkCoding.EncodedPrefix: the same bound.
- AdminRuns.EmailUniqueness: operations run one after the other; two that interleave between their check and their store may both take an email (`AdminRuns.InterleavedCreatesShareEmail`), and `AdminRuns.LateCommitKeepsEmails` says when a late one is safe.
- S3Buckets.LimitHolds: one request at a time, for the same reason (`S3Buckets.InterleavedCreationsExceed`, `S3Buckets.LateCreation`).
- CanonicalForm.EncodingIsNormalForm: for byte strings, which is what the source encodes; a Dafny `char` may be larger. `CanonicalForm.CanonicalUriIs` and `CanonicalForm.CanonicalQueryIs` likewise.
- BucketNames.CreationAnswers: for the stores of `S3Buckets.CreationMeaning`.
- Unicode: trimming is ASCII only; validity of UTF-8 matters only where the decoder checks it.
- Rows that do not decode: the JSON text of records is replaced by its fields, so the errors of a corrupt row are not modelled, except for capabilities that do not parse.
- The `ListBuckets` page size of `usize::MAX`, whose increment overflows before it is converted.
- `canonical_headers`, `canonical_request`, `string_to_sign`, `signing_key`, date parsing and clock skew: concatenations and opaque values.
- `verify_trailer_checksum` and other digests: base64 and CRC32 are not modelled; trailer signatures are not verified by the source either.
- XML tokenising: the multi-delete machine starts from the event stream; writing XML is not modelled, and neither is URL encoding of listings.
- `bucket_stats`, copying headers to attributes, routing, error documents and the admin JSON documents: single-branch code.
- Placement rules, zonegroups and shard counts of buckets: constants carried along.
- Bucket lookup and permission checks in front of object reads and listings: single-branch code; only deletion has its owner check.
- Waiting for the connection mutex, SQLite errors and I/O.
