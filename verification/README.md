# airbrake-proxy, modelled in Dafny

airbrake-proxy accepts Airbrake error notices over HTTP. It answers each
submission at once with an Airbrake-style XML notice carrying a generated id.
It then relays the notice to Airbrake and, when configured, translates it for
Sentry. A later `GET /locate/<id>` redirects the client to the Airbrake notice
once Airbrake has answered.

This project models the pure rules inside the worker's callbacks in
`server.js`:

- the lookup path sanitiser and the 303/404 lookup decision;
- the acknowledgement template and its `{UUID}` substitution;
- the classification of Airbrake's reply;
- the correlation record in the Redis hash, kept as a `map<string, string>`;
- the Airbrake → Sentry translation: frames, event and `X-Sentry-Auth` header.

Files:

- `wrappers.dfy` (`Wrappers`): `Option`.
- `js_string.dfy` (`JsString`): the JavaScript string semantics the rules
  depend on.
  - `indexOf`.
  - `replace` with a string pattern, which replaces the first occurrence only.
  - `replace` with a global regular expression of fixed text.
  - The `$` patterns of replacement strings (GetSubstitution in ECMA-262).
  - Decimal rendering of numbers, with its parser.
  - `ReplaceEvery` is a plain reference definition of global replacement.
    `ReplaceAllIsLiteral` ties the runtime behaviour to it.
- `correlation.dfy` (`Correlation`): the store and the Airbrake reply classification.
  - A trace model of the writes: `Run` applies submission and reply events in order.
  - Each record's life is derived from that trace.
- `intake.dfy` (`Intake`): the GET lookup, and the acceptance of a submission, which is any request whose method is not GET.
- `translator.dfy` (`Translator`): the Sentry event and request.

The model follows the code as written. One consequence is easy to miss. The
pending sentinel is the string `"null"`, and JavaScript treats it as true. So
a lookup made after the pending write but before Airbrake answers is
redirected to `https://airbrake.io/locate/null`; it is not answered with 404
(`Intake.PendingLookupRedirectsToNull`). A 404 comes only when the field is
unset, empty or unreadable.

## Model

| member | source | states |
|---|---|---|
| Intake.Handle | server.js:260-274 | a GET is a lookup and every other method is a submission: a lookup answers as `HandleGet`, a submission gets status 200, makes the id pending, relays under the request path, uses Sentry exactly when its host is set and, with no "{" in the hostname and no "$" in the id, answers with the acknowledgement |
| Intake.Truncate | server.js:261 | `substring(0, n)` keeps a prefix of the string, of length n or the whole string when it is shorter |
| Intake.LookupKey | server.js:261 | the lookup key is at most 36 characters and contains no "/" |
| Intake.LookupKeyIdempotent | server.js:261 | sanitising a sanitised key leaves it unchanged |
| Intake.LocatePathYieldsId | server.js:261 | "/locate/" followed by an id of at most 36 characters without "/" sanitises back to that id |
| Intake.Decide | server.js:263-269 | redirect (status 303) exactly when the stored reply is present and non-empty, to "https://airbrake.io/locate/" plus the reply; otherwise 404 |
| Intake.RedirectNamesStoredValue | server.js:264-266 | a redirect has status 303, and its location is the fixed base followed by the stored value, which can be read back from it |
| Intake.HandleGet | server.js:261-269 | a GET redirects exactly when the sanitised key has a non-empty value in the store |
| Intake.PendingLookupRedirectsToNull | server.js:290 | for an id of at most 36 characters without "/", a lookup after the pending write redirects to ".../locate/null" and does not give 404 |
| Intake.StoredLookupRedirectsToNotice | server.js:109 | for an id of at most 36 characters without "/", a lookup after a successful relay redirects to the Airbrake notice id |
| Intake.UnknownIdNotFound | server.js:267-268 | a key that is not in the store gives 404 |
| Intake.Acknowledgement | server.js:282 | with no "{" in the hostname and no "$" in the id, the body is the template with the id both in `<id>` and at the end of the `/locate/` URL |
| Intake.AcknowledgementHasNoPlaceholder | server.js:282 | with no "$" in the id and no "{" in the hostname, no "{UUID}" is left in the body unless the id carries one |
| Intake.AcknowledgedUrlLooksUpId | server.js:56 | for an id of at most 36 characters with no "/" and no "$", and a hostname without "{", the locate path in the body, used as a GET path, looks up the acknowledged id |
| Intake.Accept | server.js:274-297 | a submission (any method other than GET) gets status 200; the id's record becomes "null" and no other record changes; the relay goes to the original path; Sentry is used exactly when its host is set; with no "{" in the hostname and no "$" in the id, the body has the acknowledgement shape |
| Correlation.Pending | server.js:290 | the pending write sets the id to "null", adds only that key and changes no other key |
| Correlation.Classify | server.js:107-116 | success exactly when a non-empty first notice id is present (the id is that text); rate-limited exactly when there is no id and the error text is "Project is rate limited."; malformed for any other reply body; timeout and transport error keep their own tags |
| Correlation.Record | server.js:108-109 | only a success writes, and it writes the notice id under the submission's id alone |
| Correlation.NoticeIdTakesPrecedence | server.js:108-111 | a document carrying both a notice id and the rate-limit error counts as a success: the order of the tests, not a reply Airbrake sends |
| Correlation.ReplyLeavesSentinelOrNoticeId | server.js:107-116 | after the pending write and any reply, the record is "null" or the notice id from the reply, and the key set grows only by the id |
| Correlation.Step | server.js:289-292 | a submission sets its field to "null"; a reply changes its field only on success, to the notice id; no other field changes |
| Correlation.Run | server.js:289-292 | after any sequence of events, a field that no event is about keeps its value |
| Correlation.RecordsAreIndependent | server.js:289-292 | over any interleaving of submissions and replies, a record's value depends only on the events about its own id |
| Correlation.RecordLifecycle | server.js:289-292 | a record is untouched before its submission, "null" after it, and after its reply it is "null" or the notice id |
| JsString.IndexOf | server.js:158 | the result is the first index where the pattern occurs, or none exactly when it does not occur |
| JsString.DollarPatterns | server.js:158 | a two-character replacement "$$" gives "$", "$&" the match, "$`" the text before it, "$'" the text after it; "$" before any other character stays |
| JsString.DollarPairInReplacement | server.js:158 | in a longer replacement, a "$" and the character after it expand as that pair does alone, and the rest of the replacement expands after them |
| JsString.SubstitutionDrawsFrom | server.js:158 | every character a replacement string produces comes from that string, the match, or the text before or after the match |
| JsString.ReplaceFirst | server.js:158 | a string without the pattern is unchanged; otherwise the text before the first occurrence and the text after it are kept |
| JsString.ReplaceFirstAt | server.js:158 | a string-pattern replace with a "$"-free replacement rewrites the first occurrence only |
| JsString.LaterOccurrenceSurvives | server.js:158 | an occurrence after the first one survives the replace for any replacement, at the same distance from the end |
| JsString.LaterOccurrenceShifted | server.js:158 | with a replacement without "$", an occurrence after the first one moves by the difference between the replacement's length and the pattern's |
| JsString.PlainSubstitution | server.js:282 | a replacement string without "$" is inserted verbatim |
| JsString.ReplaceAll | server.js:282 | a global replace leaves a string without occurrences unchanged, whatever the replacement |
| JsString.ReplaceAllFromWithoutMatch | server.js:261 | a scan from a point past which nothing matches copies the rest of the string |
| JsString.ReplaceAllIsLiteral | server.js:282 | a global regex replace with a "$"-free replacement equals the reference global replacement |
| JsString.ReplaceEveryWithoutMatch | server.js:261 | global replacement leaves a string without occurrences unchanged |
| JsString.ReplaceEveryAfterPlainPrefix | server.js:282 | a prefix without the pattern's first character passes through replacement untouched |
| JsString.ReplaceEveryAtPattern | server.js:282 | an occurrence at the start is replaced and the scan resumes after it |
| JsString.ReplaceTwoSlots | server.js:282 | with a replacement without "$", a text with two placeholders gets the replacement in both places, provided the pieces around them do not contain the pattern's first character |
| JsString.Without | server.js:261 | the result holds every character of the input except the removed one, and no other |
| JsString.RemoveCharIsWithout | server.js:261 | replacing "/" with "" globally removes every "/" and keeps all other characters in order |
| JsString.NoOccurrenceAcrossSeam | server.js:282 | two pieces without the pattern join without it when no occurrence can straddle the join |
| JsString.Decimal | server.js:213 | a number's decimal text is non-empty digits with no leading zero |
| JsString.DecimalRoundTrip | server.js:213 | reading back the decimal text of n gives n |
| JsString.DecimalValueAppendsZeros | server.js:213 | appending "000" to any string of digits multiplies its value by a thousand |
| JsString.DecimalTimesTen | server.js:213 | appending "0" to the digits of a positive number multiplies it by ten |
| JsString.DecimalTimesThousand | server.js:213 | appending "000" to the digits of a positive number multiplies it by a thousand |
| Translator.ResolveFileReplacesFirstToken | server.js:158 | for a project root without "$", a frame's file name has its first "[PROJECT_ROOT]" replaced by the root and the rest kept |
| Translator.ResolveFileKeepsLaterTokens | server.js:167 | later "[PROJECT_ROOT]" tokens stay in the file name for any project root, at the same distance from the end |
| Translator.ResolveFile | server.js:158 | a file name without "[PROJECT_ROOT]" is kept as it is |
| Translator.AmpRootKeepsEveryFile | server.js:158 | with a project root of "$&" the runtime expands the root back to the matched token, so every file name is left unchanged |
| Translator.NodeFrames | server.js:156-164 | one "node" frame per line, in order, built from that line |
| Translator.StackFrames | server.js:152-172 | n lines give n frames in order; each frame copies the line's number and method, has `in_app` set and a resolved file name; frames 0..n-2 are "node" and frame n-1 is "exception" |
| Translator.FramesFollowUnique | server.js:152-172 | the frame description determines the frame sequence |
| Translator.LastFrameStandsApart | server.js:162-171 | the last frame's module tag differs from that of every earlier frame |
| Translator.AuthHeader | server.js:213 | the header starts with the version-5 prefix and ends with the client, key and secret fields; between them is a run of digits whose value is the clock reading times 1000; the header ends with the project's secret field |
| Translator.AuthHeaderTimestamp | server.js:213 | for a positive clock reading, the header's timestamp field is that reading times 1000 in decimal, followed by the client, key and secret fields |
| Translator.Translate | server.js:145-213 | skipped exactly when the api-key has no project; a throw exactly when it has one and the backtrace is empty; dropped exactly when the event is built but compressing it fails; otherwise message, culprit and exception value are the error message, type is the error class, frames follow the backtrace, and project, platform and auth credentials come from the mapped project |
| Translator.EventOf | server.js:174-190 | message, culprit and exception value are the error message; type is the error class; frames follow the backtrace; server name is the environment's hostname; extra and logger are empty; timestamp is the clock reading; project and platform come from the mapped project |
| Translator.PostedCredentialsBelongToProject | server.js:213 | the posted auth header ends with the secret of the project the api-key maps to |

## Left out

- Worker cluster forking and restart on exit (server.js:62-79): process management, with no data rules.
- HTTP server, HTTP clients, sockets, `abort` and connection teardown (server.js:99-140, 220-249, 256-300). These are network I/O. A relay's timeout and transport error appear only as the reply tags `TimedOut` and `TransportFailed`.
- The Sentry request's outcome (server.js:220-245): it only feeds metrics and logs.
- Redis and StatsD clients and `microtime` timings (server.js:44-53, 96, 104-105, 217, 225-226, 286-287). Redis is a `map`, and a failed read counts as an absent field. Metrics are dropped.
- XML parsing with `xml2js` (server.js:107, 145). It is a foreign library, so its output is taken as the datatypes `AirbrakeDoc` and `Notice`.
- Correlation.Classify: a `<notice>` without any `<id>` child makes `airbrake.notice.id[0]` throw inside the parser's callback. How that ends depends on the parser library, so it is not modelled: `NoticeReply` always carries a list of ids, possibly empty.
- Translator.Translate: elements missing from a notice (no `<error>`, `<server-environment>` or `<project-root>`) also throw in the source. The `Notice` datatype always has them.
- Translator.Translate: the api-key lookup is modelled as map membership. Object properties inherited in JavaScript, such as an api-key of "constructor", are not modelled.
- The event's MD5 `event_id`, its JSON serialisation, zlib deflate (RFC 1950 wrapping RFC 1951) and base64 (section 4 of RFC 4648) (server.js:193-201): foreign crypto and compression. Whether deflate fails is the `deflateFails` parameter of `Translate`; a failure drops the event.
- `Date.now()` (server.js:188, 213): both clock readings are parameters of `Translate`.
- `lib/uuid` and `lib/config` are not part of this model. The id is a parameter; configuration values (listen hostname and port, Sentry host, the projects map) are parameters.
- Correlation.Pending: the pending write at server.js:290 can fail. Its callback ignores the error and starts the relay anyway, so the field stays unset and a lookup gives 404. The model treats the write as always succeeding. `Correlation.RecordLifecycle`'s "null after submission" holds only when the write succeeds.
- Correlation.Record: the notice-id write at server.js:109 has no callback, and a failure there leaves the field at "null". The model treats this write as always succeeding too. Both failures are Redis I/O errors.
- JsString.Decimal: JavaScript prints numbers of 10^21 and above in exponent notation. That form is not modelled. The proxy renders only a port and `Date.now()`, both far below that bound.
- Configuration loading and `process.exit` (server.js:29-38, 47-50).
- Intake.LookupKey: JavaScript measures `substring(0, 36)` in UTF-16 code units. Dafny strings are sequences of Unicode scalar values, so the limit counts characters outside the Basic Multilingual Plane differently.
- The ordering of the acknowledgement before the relays, and the concurrency between the relays, are not modelled beyond the event order that `Correlation.Run` applies.
