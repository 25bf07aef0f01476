# Gmail unsubscribe controller, modelled in Dafny

This project models the core of the e-mail controller of a Gmail "bulk
unsubscribe" web service (`server/controllers/emailController.ts`):

- **`parseUnsubscribeHeader`** turns the value of a `List-Unsubscribe`
  header into two candidate lists, web links (`http…`) and mail links
  (`mailto…`). A header that starts with `<` and ends with `>` takes the
  simple path: split on `,`, trim, strip one character at each end, filter by
  prefix. Any other header is scanned with the global regular expression
  `/<([^>]*)>/g`, and each captured token is pushed to at most one list.
- **`createRawEmail`** builds the fallback unsubscribe mail:
  - four header lines, an empty line and the body, joined with `\n`;
  - the subject as an RFC 2047 encoded word (`=?utf-8?B?…?=`);
  - the whole message encoded as UTF-8, then as base64url without padding
    (RFC 4648 section 5).
- **The `getSubscriptions` loop** catalogues every fetched message that has
  both a `From` and a `List-Unsubscribe` header, in input order.
- **The `unsubscribe` loop** handles each requested message id in turn:
  - it fetches the message;
  - it POSTs the web links in order until one does not throw;
  - it falls back to sending a mail when `results.find` for the id is not a
    success;
  - it records a failure when anything in the turn throws.

Modules, one per concern:

| module | file | what it holds |
|---|---|---|
| `Wrappers` | wrappers.dfy | `Option`, `Result` |
| `Bytes` | bytes.dfy | the `byte` type |
| `Text` | text.dfy | the JavaScript string operations used: `startsWith`, `endsWith`, `trim` (ECMAScript whitespace), `slice(1, -1)`, `split`, `join`, `filter` |
| `Base64` | base64.dfy | RFC 4648 base64 encode/decode, and the base64url rewrite of line 168 with its inverse |
| `Utf8` | utf8.dfy | UTF-8 encoding of Unicode scalar values (what `Buffer.from(string)` does) and its decoder |
| `Headers` | headers.dfy | message headers and `headers.find(h => h.name === …)` |
| `UnsubscribeHeader` | unsubscribe_header.dfy | `parseUnsubscribeHeader`: a specification function `Parse`, the imperative `ParseUnsubscribeHeader` with its regex loop `Scan`, and the lemmas about them |
| `RawEmail` | raw_email.dfy | `createRawEmail` and a reader for the message it encodes |
| `Subscriptions` | subscriptions.dfy | the catalog loop of `getSubscriptions` |
| `Unsubscribe` | unsubscribe.dfy | the per-message loop of `unsubscribe`, proved against a specification `Run` |

Network calls are oracles passed in as function values. Each is keyed by the
message's position in the batch, so two turns for the same id may see
different answers:

- `get(pos, id)` is `messages.get`;
- `post(pos, attempt, url)` is `fetch(url, {method: 'POST'})`;
- `send(pos, raw)` is `messages.send`.

Every call the loop makes is recorded (`GetCall`, `PostCall`, `SendCall`), so
the contracts can speak about what was tried, and in which order.

## Model

| member | source | states |
|---|---|---|
| UnsubscribeHeader.ParseUnsubscribeHeader | server/controllers/emailController.ts:130-154 | the method returns `Parse(header)`: the simple split/trim/slice/filter path when the header starts with `<` and ends with `>`, the bracket scan otherwise |
| UnsubscribeHeader.Scan | server/controllers/emailController.ts:141-150 | the `regex.exec` loop, resuming each search at `lastIndex`, pushes every `http` token to `http` and every other `mailto` token to `mailto`, in order: it returns the classification of all the matches of the header |
| UnsubscribeHeader.ScanAdvance | server/controllers/emailController.ts:142-143 | after one `regex.exec` match, the tokens seen so far plus this one, followed by the matches from just past its `>`, are still all the matches of the header |
| UnsubscribeHeader.ClassifySnoc | server/controllers/emailController.ts:144-148 | one more token is appended to the list of its prefix, if it has one, and the other list is unchanged |
| UnsubscribeHeader.ExecLeftmost | server/controllers/emailController.ts:141-143 | a match from `lastIndex` is the leftmost `<` at or after it, closed by the first `>` after that `<`; there is no match exactly when no such pair exists |
| UnsubscribeHeader.SpanEndUnique | server/controllers/emailController.ts:141 | `[^>]*` followed by `>` closes at the first `>`: a span has one end |
| UnsubscribeHeader.SpansNoClose | server/controllers/emailController.ts:140-143 | `[^>]*` captures no `>`: no token of the scan holds one |
| UnsubscribeHeader.ClassifyMembers | server/controllers/emailController.ts:137-138 | `http` holds exactly the tokens starting with `http`, `mailto` exactly those starting with `mailto`; no token is in both, and together they hold at most all tokens |
| UnsubscribeHeader.ClassifyCount | server/controllers/emailController.ts:145-149 | each token lands in at most one list (the `if`/`else if`) |
| UnsubscribeHeader.PrefixesExclusive | server/controllers/emailController.ts:145-147 | no token starts with both `http` and `mailto` |
| UnsubscribeHeader.ParseList | server/controllers/emailController.ts:134-150 | a comma-separated list of bracketed tokens with whitespace padding parses to exactly those tokens, classified, whichever of the two paths the header takes |
| UnsubscribeHeader.SimpleList | server/controllers/emailController.ts:136 | on such a list the split/trim/slice path recovers the tokens |
| UnsubscribeHeader.SpansList | server/controllers/emailController.ts:140-150 | on such a list the regex scan recovers the same tokens |
| UnsubscribeHeader.SpansListAt | server/controllers/emailController.ts:140-143 | wherever such a list starts in the header, the scan from there yields exactly its tokens |
| UnsubscribeHeader.ScanToken | server/controllers/emailController.ts:140-143 | a `<`, the first `>` after it and no `<` before the next offset: the scan takes that token and goes on from that offset |
| UnsubscribeHeader.ParseNoBrackets | server/controllers/emailController.ts:139-150 | a header with no complete `<…>` span (no `>` after any `<`, including an unterminated `<https://x`) yields two empty lists |
| UnsubscribeHeader.ParseLinkAndAddress | server/controllers/emailController.ts:134-138 | the usual `<web>, <mailto:…>` header parses to that web link and that mail link |
| UnsubscribeHeader.ParseSingleLink | server/controllers/emailController.ts:134-138 | a header holding one bracketed web link parses to that link and no mail link |
| Text.TrimStart | server/controllers/emailController.ts:136 | the result is the longest suffix not starting with ECMAScript whitespace |
| Text.TrimEnd | server/controllers/emailController.ts:136 | the result is the longest prefix not ending with ECMAScript whitespace |
| Text.TrimPadding | server/controllers/emailController.ts:136 | `trim` removes exactly the whitespace padding around a string that is its own trim |
| Text.Inner | server/controllers/emailController.ts:136 | `slice(1, -1)` drops the first and last character of a string of Unicode scalar values (not UTF-16 code units); a string shorter than two characters becomes empty |
| Text.Split | server/controllers/emailController.ts:136 | `split` returns at least one piece, and no piece holds the separator |
| Text.JoinSplit | server/controllers/emailController.ts:136 | joining the pieces of a split restores the string |
| Text.SplitJoin | server/controllers/emailController.ts:136 | splitting a join of separator-free pieces restores the pieces |
| Text.FilterMembers | server/controllers/emailController.ts:137-138 | `filter` keeps exactly the elements that pass |
| RawEmail.CreateRawEmail | server/controllers/emailController.ts:156-169 | the raw mail uses only the base64url alphabet, and its length is the unpadded base64 length of the UTF-8 message |
| RawEmail.RawDecodes | server/controllers/emailController.ts:167-168 | base64url-decoding the raw mail, then UTF-8-decoding it, gives back exactly the joined message |
| RawEmail.MessageLayout | server/controllers/emailController.ts:158-167 | for a recipient without a newline, reading the message gives the four header lines (`To:`, Content-Type, MIME-Version, `Subject:`) and then the body intact |
| RawEmail.ReadLayout | server/controllers/emailController.ts:163-167 | non-empty, newline-free header lines, an empty line and a body, joined with `\n`, read back as those headers and that body |
| RawEmail.SubjectRoundTrip | server/controllers/emailController.ts:157 | decoding the `Subject:` line's encoded word gives back the subject |
| Base64.DecodeEncode | server/controllers/emailController.ts:157 | decoding a base64 encoding gives back the bytes |
| Base64.EncodeDecode | server/controllers/emailController.ts:157 | a string that decodes is the canonical encoding of its bytes |
| Base64.EncodeUrlLength | server/controllers/emailController.ts:168 | without padding the encoding has `4⌊n/3⌋` characters plus 0, 2 or 3 |
| Base64.EncodeUrlAlphabet | server/controllers/emailController.ts:168 | after the `+`→`-` and `/`→`_` rewrite and stripping `=`, only `A-Z a-z 0-9 - _` remain |
| Base64.DecodeUrlEncodeUrl | server/controllers/emailController.ts:168 | the base64url rewrite is invertible: decoding it gives back the bytes |
| Utf8.DecodeEncode | server/controllers/emailController.ts:157 | UTF-8 decoding of `Buffer.from(s)` gives back `s` |
| Utf8.EncodeAppend | server/controllers/emailController.ts:167-168 | the encoding of a concatenation is the concatenation of the encodings |
| Headers.Find | server/controllers/emailController.ts:41-42 | `headers.find` by name gives the first header with exactly that name, and misses only when no header has it |
| Headers.LookupFirst | server/controllers/emailController.ts:83 | the value found is the first matching header's value |
| Subscriptions.GetSubscriptions | server/controllers/emailController.ts:34-51 | the loop builds `Catalog(messages)`: one entry per message with both headers, in input order |
| Subscriptions.CatalogKept | server/controllers/emailController.ts:44-49 | entry `j` is built from the message at position `Kept[j]`, which has both headers: its id, its `From` value and the parse of its `List-Unsubscribe` value |
| Subscriptions.KeptIncreasing | server/controllers/emailController.ts:34 | catalogued positions strictly increase: input order is kept and no message appears twice |
| Subscriptions.KeptExactly | server/controllers/emailController.ts:44 | a message is catalogued exactly when it has both a `From` and a `List-Unsubscribe` header |
| Subscriptions.CatalogEntries | server/controllers/emailController.ts:45-49 | every entry's id and methods come from some fetched message's id and header |
| Subscriptions.CatalogKeepsEmpty | server/controllers/emailController.ts:44-49 | a message whose unsubscribe header holds no complete `<…>` span is still catalogued, with two empty lists |
| Unsubscribe.FirstFor | server/controllers/emailController.ts:102 | `results.find` by id yields the FIRST result carrying that id, and misses only when no result carries it |
| Unsubscribe.HttpFromPosts | server/controllers/emailController.ts:89-92 | the POSTs made are the links from the current one on, in order; a failed tier POSTed every remaining link |
| Unsubscribe.HttpFromVerdict | server/controllers/emailController.ts:90-97 | every POST but the last made threw, and the tier succeeds exactly when the last returned |
| Unsubscribe.HttpFromShape | server/controllers/emailController.ts:89-98 | the links are POSTed in order; every POST but the last one made threw; the tier succeeds exactly when the last one returned; a failed tier POSTed every link |
| Unsubscribe.TryHttp | server/controllers/emailController.ts:89-99 | the `for … break` loop makes exactly the POSTs and reaches exactly the verdict of `HttpFrom` |
| Unsubscribe.HandleMessage | server/controllers/emailController.ts:75-119 | one pass of the loop body, including its `catch`, pushes and calls exactly what `Turn` says, with the given fallback test |
| Unsubscribe.TryMethods | server/controllers/emailController.ts:86-114 | once the header is found: the web tier, then the fallback mail if the test asks for it, with a throwing send recorded as a failure, exactly as `Turn` says |
| Unsubscribe.UnsubscribeAll | server/controllers/emailController.ts:74-120 | the whole loop produces exactly the results and calls of `Run` over all ids, with the given fallback test |
| Unsubscribe.TurnIds | server/controllers/emailController.ts:89-119 | a turn pushes at most two results, all for its own id |
| Unsubscribe.TurnSingle | server/controllers/emailController.ts:89-114 | under the per-message check, or when no earlier result carries the id, a turn pushes at most one result |
| Unsubscribe.TurnCalls | server/controllers/emailController.ts:75-119 | a turn's calls start with the fetch of its message and all concern its own position |
| Unsubscribe.NoHeaderNoResult | server/controllers/emailController.ts:83-85 | a message without a `List-Unsubscribe` header is fetched and nothing is pushed for it |
| Unsubscribe.TierPolicyFound | server/controllers/emailController.ts:89-114 | for a fresh id: a returned POST is its one result and no mail is sent; otherwise every link was POSTed and threw, exactly one mail is sent, and its outcome is the one result (success, or failure with the send error) |
| Unsubscribe.FallbackMail | server/controllers/emailController.ts:86-109 | the fallback mail is `createRawEmail` to the first mailto candidate (`undefined` when there is none), with subject `Unsubscribe` and body `Please unsubscribe me` |
| Unsubscribe.EarlierSuccessSuppressesMail | server/controllers/emailController.ts:102 | as written, when the first result recorded earlier for the same id is a success, the turn sends no mail (a success recorded after an earlier failure for the id does not suppress it) |
| Unsubscribe.FirstForAppend | server/controllers/emailController.ts:102 | `find` over results pushed later sees the earlier entries first |
| Unsubscribe.TurnStepShape | server/controllers/emailController.ts:75-119 | every turn pushes results only for its own id and starts by fetching its own message |
| Unsubscribe.TurnStepSingle | server/controllers/emailController.ts:89-114 | a turn for an id with no earlier result pushes at most one result; under the per-message test every turn does |
| Unsubscribe.RunOrder | server/controllers/emailController.ts:74-120 | for any loop body that pushes only for its own id: results appear in input order, result `j` belongs to position `Owners[j]`, the owners never decrease, and each result carries its position's id |
| Unsubscribe.EveryIdFetched | server/controllers/emailController.ts:74-120 | every id of the batch is fetched, whatever happened to the ids before it |
| Unsubscribe.RunPrefix | server/controllers/emailController.ts:74 | later turns only append to the results and to the calls |
| Unsubscribe.FailureRecorded | server/controllers/emailController.ts:116-119 | in the whole loop, a throw from `messages.get` records a failure with that error message, and every later id is still fetched |
| Unsubscribe.FreshId | server/controllers/emailController.ts:74-120 | with distinct ids, no result before a position carries that position's id |
| Unsubscribe.AtMostOnePerPosition | server/controllers/emailController.ts:74-120 | for a loop body that pushes at most one result per turn, or one for a fresh id when the ids are distinct: owners strictly increase, so there are at most as many results as ids |
| Unsubscribe.PerMessageAtMostOne | server/controllers/emailController.ts:74-120 | under the per-message test, any batch gets at most one result per batch position: result `j` belongs to position `Owners[j]`, carries that position's id, and the positions strictly increase (a repeated id can therefore get one result per occurrence) |
| Unsubscribe.DistinctAtMostOne | server/controllers/emailController.ts:74-120 | as written, a batch of distinct ids gets at most one result per batch position, with strictly increasing positions, so no two results carry the same id |
| Unsubscribe.RunIds | server/controllers/emailController.ts:74-120 | every result carries one of the batch's ids |
| Unsubscribe.TurnAgrees | server/controllers/emailController.ts:102 | for an id with no earlier result, the two fallback tests give the same turn |
| Unsubscribe.AgreeOnFresh | server/controllers/emailController.ts:74 | two loop bodies that agree on fresh ids give the same run over distinct ids |
| Unsubscribe.PerMessageAgrees | server/controllers/emailController.ts:102 | with distinct ids the per-message test and the `find` test give the same results and calls |
| Unsubscribe.RepeatedIdAsWritten | server/controllers/emailController.ts:102 | for `[id, id]`, a throwing first fetch and a returning POST on the second, as written: three results, the last a mail success after a web success |
| Unsubscribe.RepeatedIdPerMessage | server/controllers/emailController.ts:102 | the same batch under the per-message check: the fetch failure and then the web success, one result per batch position |

## Left out

- The Express request and response, OAuth setup, logging, `async`/`await` and
  the outer `try`/`catch` that answers 500 (lines 11-32, 53-73, 121-127) are not
  modelled. I/O and error reporting are outside the loops.
- `messages.list`, its query and `maxResults: 500` (lines 24-30) are not
  modelled. `Subscriptions.GetSubscriptions` takes the fetched messages as its
  input.
- Subscriptions.GetSubscriptions: a throw from `messages.get` inside this
  loop aborts the whole request through the outer `catch` (500). The model
  takes already-fetched messages, so it does not model that abort.
- Gmail's `messages.get`, `messages.send` and `fetch` are oracles. The model
  does not look at HTTP status codes. As in the code, a POST that returns a
  non-2xx status counts as a success, because only a throw fails.
- `headers.find` yields header objects whose `value` may be `null` or
  `undefined` in the Gmail typings. The model gives every header a string value.
- Text.Inner: JavaScript's `slice(1, -1)` removes one UTF-16 code unit at
  each end; the model removes one Unicode scalar value. The two differ when
  the first or last character lies outside the Basic Multilingual Plane:
  JavaScript leaves half of a surrogate pair behind, the model removes the
  whole character.
- UnsubscribeHeader.ParseUnsubscribeHeader: because of the `Text.Inner`
  difference, a simple-shape header whose comma-separated piece, once
  trimmed, begins or ends with a character outside the Basic Multilingual
  Plane can parse differently. For `<a>,😀http://x>` the code's second token
  starts with a lone low surrogate and is dropped; the model's token is
  `http://x` and is kept as a web link.
- Strings are sequences of Unicode scalar values. `Buffer.from(string)` on a
  JavaScript string with a lone surrogate (which it encodes as U+FFFD) is not
  modelled.
- The description of the service says a `mailto:` fallback goes to the
  address portion of the link. The code writes the whole token, `mailto:`
  prefix included, into the `To:` line (line 109). The model follows the code.
- The describing text also says a message with no usable mechanism is
  reported as failed. The code pushes nothing for a message without a
  `List-Unsubscribe` header (line 85). The model follows the code
  (`Unsubscribe.NoHeaderNoResult`).
- `methods.mailto` is an array and always truthy. So, as in the code, the
  fallback runs even when there is no mailto candidate, and the mail goes to
  `undefined` (`Unsubscribe.FallbackMail`).
- Unsubscribe.TryMethods: it receives the raw fallback mail as an argument,
  computed before the web tier runs. The code builds it (line 106) only when
  the fallback runs. `createRawEmail` is pure, so the calls and results are
  the same either way.
- Unsubscribe.HandleMessage: a web success is pushed once the HTTP tier
  finishes, not at the moment its POST returns. Nothing observes the results
  in between, so the pushed results and the calls are the same.

## Findings

| source | as written | input that shows it | evidently intended | confidence | as-written member | corrected member |
|---|---|---|---|---|---|---|
| server/controllers/emailController.ts:102 | the fallback asks `results.find(r => r.messageId === messageId)`, which returns the FIRST result recorded anywhere in the batch for that id | ids `[id, id]`; the first `messages.get` throws; the second finds `<https://…>` and its POST returns. `find` returns the first turn's failure, so a mail is sent as well: three results for two ids, a web success followed by a mail success for the same message | the fallback runs only when this message's own HTTP tier did not succeed, so each batch position gets at most one result | not executed | Unsubscribe.RepeatedIdAsWritten | Unsubscribe.PerMessageAtMostOne |

`Check` selects the fallback test in `HandleMessage`, `TryMethods`,
`UnsubscribeAll`, `Turn` and `TurnStep`. `Run` folds whichever `TurnStep`
it is given over the batch:

- `AsWritten` is the `find` of line 102.
- `PerMessage` is the corrected test: the mail is sent only when this turn's
  HTTP tier pushed nothing.

`PerMessageAtMostOne` proves the intended bound for the corrected test on
every batch: at most one result per batch position. `PerMessageAgrees` shows that the two tests agree whenever the
ids are distinct, and `RepeatedIdPerMessage` runs the batch of the finding
under the corrected test.
