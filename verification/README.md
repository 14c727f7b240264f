# aws-sdk-go-base: verified models of its algorithmic parts

The repository configures the AWS SDKs for Go. Most of it hands values to those
SDKs; five places decide something on their own, and these are modelled and
proved here.

- **Log redaction.** `Redaction.dfy` holds the two masking passes over a byte
  array and their composition; `RedactionProperties.dfy` proves that the first is
  the leftmost, greedy rewrite of the access-key pattern and equals a
  position-by-position rule, that the composition is idempotent and leaves nothing
  to mask, and when a 40-character run of the input ends up masked.
  `RedactionHiding.dfy` says exactly when a change inside what is masked does not
  show; `RedactionLocality.dfy` shows that the pieces of a text between characters
  outside base64 are masked independently, and exactly when a prefix is left alone.
  `RedactionGuarantees.dfy` says of every character of every text, by the base64 of
  RFC 4648 and the prefixes AWS documents, whether it is masked. `RedactionCut.dfy`
  says exactly when cutting a text before masking it shows
  something. `LogBody.dfy` is the truncating body reader, `LogBodyPrefix.dfy` exactly
  when a reader of a prefix logs the same, `LogBodyCut.dfy` what the cut shows,
  `ResponseLog.dfy` the v1 shim's limited writer
  and the bound on what it logs, `AuthorizationHeader.dfy` the header redactor, up
  to the components and names that the logged value still has, and
  `AuthorizationLog.dfy` the logged text of a header in any layout.
- **Duplicate JSON keys.** `JsonDuplicates.dfy`: the recursive walk over the
  decoder's cursor, against the value whose tokens it reads.
- **Role chains.** `RoleChain.dfy`: providers and caches as objects in a heap, the
  token service and the clock as an arbitrary environment, tied to functions on
  values. `RoleChainRuns.dfy` gives the result of any single retrieval in closed form
  and `RoleChainSetup.dfy` what a whole setup does. `ShimCredentials.dfy`:
  the v1 adapter that keeps the last credentials, over all runs.
- **Partition lookup.** `Partitions.dfy`: the eight patterns and the region tables,
  and why an unordered table still gives one answer.
- **User-Agent products.** `UserAgent.dfy`: parser and printer, and exactly where
  they undo each other.

`Regex.dfy` gives meaning to the regular expressions used; `Strings.dfy` holds the
shared string functions, `Wrappers.dfy` the option type. `dafny verify
dfyconfig.toml` checks everything.

Text is a `string`: one `char` per byte in the logging files, one per code point
in `UserAgent.dfy`. Code that updates things in place is a method or a class here,
tied by its `ensures` to a function on values; the laws are lemmas about that
function.

## Findings

Five expectations do not hold of the code. Each has a lemma with an input that
shows it and a lemma that says, for all inputs, exactly when the code meets it.

- A 40-character base64 run of the input can stay visible: an access-key match
  inside it is starred first and cuts it (`SecretCanStayVisible`,
  `SecretMaskedIff`). The masker's own comment speaks of every such run.
- A replacement inside a masked 40-character run can show: it may bring an
  access-key match, which is starred instead of the run (`ReplacementCanShow`,
  `MaskedHidesIff`).
- The v1 shim can log a secret that masking the whole response would hide: its
  buffer cuts the response, and what is left of a 40-character run or an access key
  at the end may be too short to match (`BufferCanShow`, `BufferShowsIff`). Cutting at
  a line end, as the body reader does, never shows anything (`TruncateThenMask`).
- An `AWS4-` header whose components are well formed can lose a component name in
  the log: a name is text like any other to the masker. `SignedHeaders=` and 26
  letters are one 40-character run, logged as `Sign****` and so on (`NameCanBeLost`,
  `NamesKept`). A hidden name of up to 20 characters is always safe
  (`ShortNamesSurvive`).
- An `AWS4-` header panics the header redactor when one of its components has no
  equals sign (`CanPanic`, `PanicsIff`).

`FromSlice` is documented to give an empty product for a string that does not match
`{product}/{version} ({comment})`; the code gives what `UserAgent.FromIs` says, and so
does the model.

## Model

| member | source | states |
|---|---|---|
| Redaction.PartialMaskString | logging/mask.go:6-15 | the counted loop builds first characters, stars, last characters; on a slice at least as long as both ends the length is kept and exactly the middle is starred, and on a shorter one the two ends overlap with no star |
| Redaction.MaskAWSAccessKey | logging/aws.go:33-38 | the result is a fresh array holding the rewritten text; the argument is not written to |
| Redaction.MaskAWSSecretKeys | logging/aws.go:50-79 | the in-place scan with its run counter turns the array into the text whose position k is starred iff it is at offset 4..35 of a maximal base64 run of length 40 of the array as it was, although it writes what it is reading, and also for a run at the end |
| Redaction.MaskAWSSensitiveValues | logging/aws.go:40-45 | the result is pass two applied to the result of pass one; nothing that existed before the call is written to |
| RedactionGuarantees.MaskedIs | logging/aws.go:13-79 | for every character of every text: it is masked iff it is past the first four and before the last four of a unique ID, or of 40 base64 characters that unique IDs leave with none beside them; every other is logged as it is; said with the alphabets and prefixes themselves |
| RedactionGuarantees.SecretHidden | logging/aws.go:47-79 | of 40 base64 characters, by RFC 4648, with none beside them and no unique ID starting in them, the first and last four are logged and 32 stars |
| RedactionGuarantees.IdHidden | logging/aws.go:10-38 | of a unique ID that starts no later than any other in its run, the first and last four characters are logged and stars for all others |
| RedactionGuarantees.OthersKept | logging/aws.go:60 | a character outside the alphabet is never changed, and any change is to a star |
| RedactionGuarantees.UniqueIdsAre | logging/aws.go:13-26 | the pattern matches exactly one of the listed prefixes followed by 16 or more upper-case letters and figures |
| RedactionProperties.MatchesAtIff | logging/aws.go:13-26 | the pattern matches a stretch iff a unique-ID prefix starts it and its whole, at least 20 characters, lies in one `[A-Z0-9]` run, so the replacement only ever sees slices of 20 or more |
| RedactionProperties.FindKeyIsLeftmostGreedy | logging/aws.go:13-26 | the search used by the model reports the leftmost, greedy occurrence of the pattern, and none exactly when nothing from that position on matches |
| RedactionProperties.MaskKeysAt | logging/aws.go:33-38 | pass one keeps the length, stars exactly the positions from four past the first usable prefix of a `[A-Z0-9]` run to four before the run's end, and changes nothing else |
| RedactionProperties.OneKeyPerRun | logging/aws.go:33-38 | a run is rewritten at most once |
| RedactionProperties.RunOfMasked | logging/aws.go:50-79 | every base64 run of pass two's output is an unmasked run of its input or a visible end of four, never one of 40 |
| RedactionProperties.NothingLeft | logging/aws.go:40-45 | the composed output has no access-key match anywhere and no maximal base64 run of exactly 40 characters |
| RedactionProperties.Idempotent | logging/aws.go:40-45 | masking twice is masking once, for every input |
| RedactionProperties.KeysHidden | logging/aws.go:33-38 | inputs that differ only where pass one stars, within `[A-Z0-9]`, give equal outputs: no first prefix moves |
| RedactionProperties.SecretsHidden | logging/aws.go:50-79 | inputs that differ only where pass two stars, within base64, give equal outputs |
| RedactionHiding.MaskedHidesIff | logging/aws.go:40-45 | an input that differs from another only where that one is masked, within the class masked there, is logged like it iff none of its access-key matches meets the masked middle of a 40-character run that pass two finds in that one, without being all of the run |
| RedactionHiding.ReplacementCanShow | logging/aws.go:40-45 | two inputs that differ only inside a masked 40-character run and are logged differently |
| RedactionLocality.MaskedLocal | logging/aws.go:40-45 | every piece of a text between characters outside base64 is masked as if it stood alone |
| RedactionLocality.MaskedJoin | logging/aws.go:40-45 | masking a list joined by a separator outside base64 is masking its elements |
| RedactionLocality.PrefixKeptIff | logging/aws.go:40-45 | the first n characters are left as they are iff no access-key match, and no 40-character run of what pass one leaves, starts more than four before n |
| RedactionLocality.UntouchedIff | logging/aws.go:40-45 | a text is left as it is iff it has no access-key match and no 40-character run |
| RedactionCut.CutShowsIff | logging/aws.go:40-45 | the first n characters of a text, masked by themselves, show a character that masking the whole stars iff an access key or a 40-character run goes on past n and its masked part starts before |
| RedactionProperties.SecretLeftIff | logging/aws.go:40-45 | pass two finds a 40-character run iff the input has 40 base64 characters there that pass one leaves, and at either end the text ends, or a character follows that is not base64 or that pass one stars |
| RedactionProperties.SecretMaskedIff | logging/aws.go:40-79 | a 40-character run of the input is masked in the final output iff no access-key match starts in it or one spans it |
| RedactionProperties.SecretCanStayVisible | logging/aws.go:40-79 | an input whose 40-character run is left visible |
| LogBody.ReadTruncatedBody | logging/http.go:323-344 | the line loop returns the masked text up to the cut, the marker iff the limit was reached, and an error iff the input fails before that |
| LogBody.TruncatedTextSpec | logging/http.go:325-338 | the text is the shortest non-empty run of first lines whose normalised length reaches the limit, else all lines; the marker follows iff the whole normalised body reaches the limit and is not empty; without its last line the text is below any positive limit |
| LogBody.CutUnique | logging/http.go:325-338 | that number of lines is unique |
| LogBody.NormalisedLength | logging/http.go:326-333 | normalising drops one character per CR LF and adds one for an unterminated last line |
| LogBody.NormalisedText | logging/http.go:326-333 | a text without CR is only terminated |
| LogBodyPrefix.PrefixLoggedIff | logging/http.go:323-343 | a proper prefix is logged like the whole text iff every line up to the cut is terminated in it, or the last of them lacks only its terminator |
| LogBodyCut.TruncateThenMask | logging/http.go:323-343 | truncating and then masking gives what masking the whole normalised body and then truncating gives, for every text and limit |
| LogBodyCut.NormalisedIs | logging/http.go:326-333 | each line, ended by LF, CR LF or the end of a text that is not empty, is followed by one LF |
| LogBodyCut.BodyIs | logging/http.go:323-344 | for any input: the masked first lines and the marker when the whole reaches the limit, otherwise an error if the input fails, otherwise all of it masked |
| LogBodyCut.PrefixShowsIff | logging/http.go:323-343 | what is logged for a prefix shows a character that masking the whole normalised body stars iff an access key or a 40-character run of that body, its masked part begun, goes on past what was read |
| ResponseLog.LimitedWriter.Write | v2/awsv1shim/logger.go:231-244 | what is appended and what remains of N after one write, and that the full length is reported |
| ResponseLog.WriteRunKeeps | v2/awsv1shim/logger.go:231-244 | any sequence of writes appends exactly the first N characters of the concatenation, from any state |
| ResponseLog.WriteRunConserves | v2/awsv1shim/logger.go:220-244 | N plus the kept length is the initial limit, N is never negative, and two chunkings of one stream end in the same state |
| ResponseLog.DecomposeResponseBody | v2/awsv1shim/logger.go:204-218 | the buffered body is read with the 4096 limit and cannot fail |
| ResponseLog.LoggedBodyBound | v2/awsv1shim/logger.go:134-139 | no stream logs a body of more than 5135 bytes |
| ResponseLog.LoggedBodyBoundReached | v2/awsv1shim/logger.go:27-29 | some stream logs exactly 5135 |
| ResponseLog.LoggedBodyIgnoresChunking | v2/awsv1shim/logger.go:134-139 | the logged body depends on the stream only, not on how it arrives |
| ResponseLog.MarkedIff | v2/awsv1shim/logger.go:27-29 | for any stream the logged body is the masked first lines of its first 5120 characters, with the marker iff those have 4096 characters in normalised lines; a stream below both limits is logged whole |
| ResponseLog.BufferSuffices | v2/awsv1shim/logger.go:27-29 | the shim logs what it would log from the whole stream iff the stream fits the buffer, or every line up to the one that reaches the limit is terminated inside it, or the last of those lacks only its terminator |
| ResponseLog.BufferShowsIff | v2/awsv1shim/logger.go:134-139 | the shim logs in the clear a character that masking the whole body would star iff an access key or a 40-character run, its masked part begun, goes on past the end of what it logs |
| ResponseLog.BufferCanShow | v2/awsv1shim/logger.go:27-29 | a stream of which it does |
| AuthorizationHeader.AuthorizationHeaderAttribute | logging/http.go:232-269 | the loop over components computes the logged value, the early exits and the panic |
| AuthorizationHeader.SchemeSplitIsRegexp | logging/http.go:233 | the scheme is split off at the leftmost, greedy white space |
| AuthorizationHeader.ComponentSplitIsRegexp | logging/http.go:248 | components are split at the leftmost, greedy comma and white space |
| AuthorizationHeader.ComponentsOfJoin | logging/http.go:248-264 | joining components and splitting again gives them back, for all components as splitting produces them |
| AuthorizationHeader.ComponentsAre | logging/http.go:248 | the components of any text: no separator inside one, and white space at the start of the first only |
| AuthorizationHeader.RedactedComponents | logging/http.go:251-264 | the text handed to the masker has the header's component names in order, the values of the two shown names, and stars for every other value |
| AuthorizationHeader.LoggedComponents | logging/http.go:245-265 | the logged value of an AWS signature, any white space in it, splits again into the header's scheme and as many components, each the header's own, redacted and masked by itself |
| AuthorizationHeader.NamesKept | logging/http.go:247-265 | each component of the logged value starts with the header's name for it iff that name survives: a hidden one iff it has no access-key match and no 40-character run in it, a shown one iff no 40-character run, after pass one, starts with it |
| AuthorizationHeader.ShownNameLostIff | logging/http.go:247-265 | a shown name is lost iff the header's component starts with 40 base64 characters that no access key covers, and then ends or goes on with a character that is not base64 or is covered |
| AuthorizationHeader.ShortNamesSurvive | logging/http.go:247-265 | hidden names of up to 20 characters survive |
| AuthorizationHeader.NameCanBeLost | logging/http.go:247-265 | a well-formed header whose logged value has lost a name |
| AuthorizationHeader.HiddenValuesDoNotShow | logging/http.go:247-265 | any two AWS signatures of one scheme that agree on which components have an equals sign, on names and on shown values get the same attribute, whatever the other values and the white space |
| AuthorizationHeader.OtherParamsHidden | logging/http.go:266-268 | for any other scheme two headers with parameters of equal length are logged alike |
| AuthorizationLog.ValuesHidden | logging/http.go:247-265 | in the logged value of any AWS signature each component is the masked name and five stars, but for those named `SignedHeaders` and `Credential`, which are logged masked as a whole |
| AuthorizationLog.SignatureLogged | logging/http.go:233-265 | the logged text of an AWS signature written with white space of any kind: the scheme, a space, and its components so, joined by a comma and a space |
| AuthorizationLog.OtherLogged | logging/http.go:266-268 | of any other scheme the scheme, a space, and one star for each character of the parameters |
| AuthorizationHeader.NotLoggedIff | logging/http.go:233-244 | a header is left out of the log iff it is not a first word, white space and something after it |
| AuthorizationHeader.PanicsIff | logging/http.go:252-254 | the redactor panics iff the header starts with `AWS4-`, has parameters, and one of their components has no equals sign |
| AuthorizationHeader.CanPanic | logging/http.go:252-254 | a header that panics |
| JsonDuplicates.CheckToken | validation/json.go:46-105 | the recursive loops over the cursor, with their key set and error list, leave the cursor and the error that the walk on values gives, on every token stream |
| JsonDuplicates.JSONNoDuplicateKeys | validation/json.go:30-38 | malformed text, a document out of range, and a top-level array or scalar other than null are refused, whatever they contain; null gives nil; an object gives nil iff no key repeats at any depth, and else leaf errors that are exactly the repeated keys |
| JsonDuplicates.WalkValue | validation/json.go:46-105 | started at any value, whatever tokens follow, the walk stops right after the value's last token with the value's errors |
| JsonDuplicates.NoErrorsIff | validation/json.go:58-104 | nil iff no object at any depth repeats a key |
| JsonDuplicates.LeavesAreExcess | validation/json.go:58-104 | as a multiset, the leaf errors are every key of every object as often as it occurs beyond the first, through nested joins |
| JsonDuplicates.RepeatsCount | validation/json.go:61-74 | for one object that is members minus distinct keys |
| JsonDuplicates.NothingLost | validation/json.go:30-38 | without duplicates the last-wins and the first-wins decode are the same tree and hold every member at every depth |
| JsonDuplicates.KeptIff | validation/json.go:30-38 | the last-wins decode holds every member at every depth iff no object repeats a key |
| RoleChain.RetrieveProvider | credentials.go:182-219 | the objects do what the function on values says: credentials, all caches below, requests and clock readings |
| RoleChain.Retrieve | credentials.go:223-224 | the same for a cache, as the SDK's cache is taken to behave |
| RoleChain.AssumeRoleCredentialsProvider | credentials.go:155-227 | the loop over the roles stops or ends as the setup on values does, with the same requests and caches; the chain it returns is new |
| RoleChain.SetUpAndRetrieve | aws_config.go:114-122 | the setup and the retrieve that follows, likewise |
| RoleChainRuns.FromProviderClimbs | credentials.go:182-219 | in every environment and state, a request of a role's provider sends one request for each link from right above the highest cache found unexpired, each signed with what the one before it obtained and the first with what that cache has, until one is denied or the role is reached; each cache keeps what was obtained for it and nothing else changes |
| RoleChainRuns.FromCacheClimbs | credentials.go:223-224 | the same for a cache that does not answer from its store |
| RoleChainRuns.ClimbUnique | credentials.go:180-224 | that description leaves nothing open: it determines result, caches, requests and clock readings |
| RoleChainRuns.CacheAnswers | credentials.go:223-224 | a cache hands out what it found unexpired just then, with no request and no change; or what the last request of this retrieval obtained, and keeps it; or nothing when that request was denied |
| RoleChainRuns.ProviderSound | credentials.go:180-219 | any retrieval keeps every request signed by credentials issued earlier to the link below, every cache holding only what was issued to its own link, and hands out only what was issued to the role asked for |
| RoleChainRuns.CacheSound | credentials.go:223-224 | the same for a cache |
| RoleChainSetup.SetUpAccounted | credentials.go:163-226 | in every run: requests only for configured roles; n roles set up took 2n-1 to n(n+1)/2 requests, each role granted at least once; none at or after a role without an ARN; when role number i fails, counted from 0, the last request was denied, it was never granted, every role before it was, and 2i to (i+1)(i+2)/2 requests were sent |
| RoleChainSetup.SetUpSound | credentials.go:179-224 | in every run all requests are properly signed and the caches hold only what was issued to their own link |
| RoleChainSetup.CalmSetUp | credentials.go:163-226 | an undisturbed setup sends exactly the listed requests and fills every cache but the last |
| RoleChainSetup.SetupLogLength | credentials.go:163-226 | those are 2n-1 requests for n roles |
| RoleChainSetup.SetupLogAt | credentials.go:179-225 | the k-th is for role k/2, signed with what one or two requests before obtained |
| RoleChainSetup.StaleSetUp | credentials.go:163-226 | where everything is found expired, n roles take exactly n(n+1)/2 requests |
| RoleChainSetup.BoundsReached | credentials.go:163-226 | for every list of roles there are runs that take n(n+1)/2 and 2n-1 requests |
| RoleChainSetup.TriangleIs | credentials.go:163-226 | the bound in closed form |
| RoleChainSetup.FirstUse | aws_config.go:114-122 | the retrieve after a setup sends a request, in every run, and hands out what was issued to the last role |
| RoleChainSetup.CalmFirstUse | aws_config.go:114-122 | it brings an undisturbed run to exactly 2n requests |
| RoleChainSetup.TraceToBase | credentials.go:180-224 | every request goes back to the base credentials through one granted request for each earlier role, in order |
| ShimCredentials.V2CredentialsProvider.RetrieveWithContext | v2/awsv1shim/credentials.go:42-55 | one call of the provider; a success replaces what is kept, a failure changes nothing |
| ShimCredentials.V2CredentialsProvider.IsExpired | v2/awsv1shim/credentials.go:57-63 | false iff credentials with both keys are kept that cannot expire, or do so after the later of its two clock reads; the provider is not called |
| ShimCredentials.V2CredentialsProvider.ExpiresAt | v2/awsv1shim/credentials.go:65-71 | the expiry of usable credentials, the zero time otherwise |
| ShimCredentials.RunKeeps | v2/awsv1shim/credentials.go:42-89 | after any run of retrieves, queries and clock advances what is kept is the last success, and the provider was called by retrieves only |
| ShimCredentials.NotExpiredIff | v2/awsv1shim/credentials.go:57-89 | not expired iff the last successful retrieve stored credentials with both keys that cannot expire or do so only later |
| ShimCredentials.ExpiredStays | v2/awsv1shim/credentials.go:57-89 | expired stays expired until a retrieve succeeds |
| Partitions.DefaultPartitions | endpoints/partition.go:53-61 | every partition of the table once, in an arbitrary order |
| Partitions.PartitionForRegion | endpoints/partition.go:64-72 | the first partition of any list that lists the region or whose pattern matches it, and not found iff there is none |
| Partitions.RegionPatternMatches | endpoints/endpoints_gen.go:88 | a pattern of this shape matches every accepted prefix, word and number joined by dashes |
| Partitions.RegionPatternSplits | endpoints/endpoints_gen.go:88 | and every text it matches is of that form, word and number not empty |
| Partitions.StemMatches | endpoints/endpoints_gen.go:88 | a pattern of this shape can match a text only by what comes before its last two dashes |
| Partitions.MatchedByOwner | endpoints/endpoints_gen.go:3199 | for every string, at most the one partition named by that stem has a matching pattern |
| Partitions.ListedMatches | endpoints/endpoints_gen.go:89-225 | every listed region matches its own partition's pattern |
| Partitions.PatternsDisjoint | endpoints/endpoints_gen.go:84-3211 | no string is covered by two partitions |
| Partitions.OrderIrrelevant | endpoints/partition.go:53-72 | every order of the partitions gives the same answer for every string |
| Partitions.LookupAnswer | endpoints/partition.go:64-72 | that answer: the partition the region's stem names if its pattern matches, else not found |
| Partitions.FoundIff | endpoints/partition.go:64-72 | in any order of the table a region is found in a partition iff it is written as one of that partition's prefixes, a word and a number, joined by dashes |
| Partitions.ListedIff | validation/region.go:22-33 | the supported regions: those names, each with these numbers |
| Partitions.SupportedRegion | validation/region.go:22-33 | nil iff some partition lists the region |
| Partitions.SupportedIsFound | validation/region.go:22-33 | a region is supported iff it is found in a partition that lists it |
| Partitions.FoundButNotSupported | endpoints/partition.go:66 | a region that a pattern accepts and no table lists |
| UserAgent.BuildUserAgentPart | internal/config/user_agent.go:26-37 | the parts one product adds to the builder |
| UserAgent.BuildUserAgentString | internal/config/user_agent.go:18-24 | the loop's result is all parts joined with one space |
| UserAgent.FromIs | useragent/from.go:23-43 | a text without a slash is a name; all after the last slash is the version, unless exactly one parenthesis is opened there, which is the next row; anything but a string gives an empty product |
| UserAgent.FromCommentIs | useragent/from.go:29-35 | the version is trimmed of Unicode white space, and the comment is what follows the parenthesis, less one closing parenthesis at its end, if it has one |
| UserAgent.PrintIs | internal/config/user_agent.go:26-37 | what is printed for each combination of empty fields |
| UserAgent.FromPrint | useragent/from.go:23-43 | parsing the printed product gives it back iff one of three conditions on its fields holds; Name may hold slashes when there is a Version |
| UserAgent.PrintFrom | useragent/from.go:25-39 | printing the parsed text gives it back iff it has no slash, or has text on both sides of its last slash and the text after has no or several opening parentheses or is exactly a trimmed version, a space and a closed comment |
| UserAgent.SliceReprints | useragent/from.go:20-22 | a list of such texts goes through parser and printer unchanged, joined with spaces |

## Left out

- The Go regexp engine: taken to report leftmost, greedy occurrences, and `ReplaceAllFunc` and `Split` to go on after each; the patterns themselves are modelled.
- LogBody.TextReader: `textproto.Reader` is modelled as delivering lines of any length; the fixed-size buffer of the `bufio.Reader` below it is not modelled. The result differs when an unterminated last line fills that 4096-byte buffer a whole number of times, with no CR at a buffer's end: the reader drops the line, so 4096 letters and nothing else are logged as the empty text.
- LogBody.ReadTruncatedBody: on those inputs the logged text lacks that last line, in the theorems of `LogBodyPrefix` and `ResponseLog` too.
- JsonDuplicates.CheckToken: the path of an error is not modelled, because `append(path, key)` can share its backing array between siblings; keys and counts are.
- JsonDuplicates.Walk: the decoder delivers the tokens of a validated document; on other streams a key that is no string is taken as its syntax error, and the kind of a closing delimiter is not checked.
- JsonDuplicates.JSONNoDuplicateKeys: reading text into tokens is `encoding/json`; the input is malformed or the tokens of a value, with a flag for whether `Unmarshal` can hold its numbers and depth.
- AuthorizationHeader: `DecomposeHTTPRequest`, the other headers, resend counts and the S3 body notes are wiring or one-line formatting.
- RoleChain.AssumeRoleCredentialsProvider: session names, policies, tags and the other role options are passed to the token service unread; the base credentials are taken to be available, as the caller has just retrieved them.
- RoleChain: the SDK's credentials cache is taken to answer from its store while unexpired and otherwise to call its provider once; expiry windows and refresh in the background are not modelled.
- ShimCredentials: the v1 SDK's own `credentials.Credentials` above the adapter is not part of this model; neither are data races on the atomic field.
- Partitions: service tables, names, descriptions and DNS suffixes, which the lookup does not read.
- UserAgent: the smithy builder is taken to join its parts with one space and to rewrite nothing; strings are valid UTF-8.
- Web identity, static and shared credentials, retry wiring, endpoint resolvers, proxy settings, diagnostics and error predicates: calls into the SDKs, or single branches.
