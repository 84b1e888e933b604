# kinproxy: SSL stripping and password capture, in Dafny

kinproxy is a man-in-the-middle toolkit built on mitmproxy. This project
models two of its plugins as pure functions over immutable records and
proves what they do.

- **sslstrip** (`plugins/sslstrip.py`) rewrites traffic so that a browser
  stays on plain HTTP.
  - Each request loses `If-Modified-Since`, `Cache-Control` and
    `Upgrade-Insecure-Requests`. If its logical host (`pretty_host`) is in
    the module-wide registry `secure_hosts`, the request is sent upstream
    over HTTPS, port 443, to that host.
  - Each response loses `Strict-Transport-Security` and `Public-Key-Pins`.
    Every `https://` in its body becomes `http://`.
  - An HTTPS `Location` is downgraded, and its host is added to the
    registry.
  - The `upgrade-insecure-requests` directive is cut out of
    `Content-Security-Policy`.
  - Every `Set-Cookie` value loses its `; secure` flag.
- **PasswordCapture** (`plugins/parserhttp.py`) scans a request body. It
  looks for `name=value` pairs whose name is in one of two fixed tables:
  38 user-field names and 18 password-field names. It reports the pair
  when both tables hit and neither text is longer than 75 characters.

Modules, one per file:

| file | module | contents |
|---|---|---|
| base.dfy | `Base` | `Option` |
| text.dfy | `Text` | ASCII case folding, occurrence predicates, literal replace-all and replace-first, regex-style deletion of matches (`DeleteMatches`, one match function per pattern), subsequences |
| headers.dfy | `Headers` | the header multimap: `pop`, `get`, `get_all`, `set_all`, `h[k] = v` |
| sslstrip.dfy | `SslStrip` | request and response rewrites, the registry, the CSP and cookie patterns, worked examples |
| session.dfy | `Session` | a sequence of exchanges sharing one registry |
| passwordcapture.dfy | `PasswordCapture` | the field tables, the leftmost `name=[^&]+` search, the last-wins scan, the length guard |

Modelling choices:

- The registry is a `set<string>`. Each response rewrite returns it,
  possibly extended, and the caller passes it on to the next call.
- Each regex substitution with an empty replacement is a `DeleteMatches`.
  The scan moves left to right. At each position a match function gives
  the length of the match starting there, or 0 if none does. A match is
  deleted and the scan resumes after it; otherwise one character is kept.
  This is how `re.sub` treats these patterns, none of which matches the
  empty string. The greedy `[;\s]*` and `\s*` are maximal runs.
- `IGNORECASE` on these byte-string patterns folds ASCII letters only.
  `\s` is space, tab, line feed, carriage return, form feed and vertical
  tab.

## Model

| member | source | states |
|---|---|---|
| SslStrip.RewriteRequest | plugins/sslstrip.py:34-49 | No `If-Modified-Since`, `Cache-Control` or `Upgrade-Insecure-Requests` field remains, in any case spelling. The headers that remain are exactly the fields under every other name, in their original order across names (`Others`), and form a subsequence of the old headers. If the pretty host is in the registry, the request has scheme `https`, port 443 and the pretty host as host. Otherwise scheme, port and host are unchanged. The registry is only read. |
| Headers.Remove | plugins/sslstrip.py:35-39 | `pop` keeps exactly the fields with another name, as an order-preserving subsequence. The length drops by the number of removed fields. Every other name's fields are unchanged. |
| SslStrip.StripEnforcementHeaders | plugins/sslstrip.py:54-55 | No `Strict-Transport-Security` or `Public-Key-Pins` field remains. What remains is exactly the other fields, in their original order across names, as a subsequence of the old headers. |
| Headers.Others | plugins/sslstrip.py:35-39 | The reference filter for "every other header": a field is kept exactly when its name is none of the listed names, and the kept fields are a subsequence of the input. |
| Headers.OthersRemove | plugins/sslstrip.py:35-39 | Popping a listed name does not disturb the other fields or their relative order. |
| Headers.OthersOfClean | plugins/sslstrip.py:35-39 | Headers with no field under a listed name are all "other" fields. |
| Headers.OthersSetAll | plugins/sslstrip.py:70-80 | Writing a listed name with `set_all` (in place, dropping surplus fields or appending) does not disturb the other fields or their relative order. |
| Headers.OthersAppended | plugins/sslstrip.py:70-80 | Fields appended under a listed name contain no other field. |
| Headers.RemoveAbsent | plugins/sslstrip.py:54-55 | Popping a name with no field leaves the headers as they were. |
| SslStrip.StripBody | plugins/sslstrip.py:58 | The body holds no `https://`. It is shorter by exactly the number of non-overlapping occurrences. It is unchanged exactly when it held none. |
| SslStrip.StripBodyKeepsText | plugins/sslstrip.py:58 | Text in which no `https://` starts is copied to the output as it is, ahead of the rewrite of the rest. |
| SslStrip.StripBodyAtLink | plugins/sslstrip.py:58 | An `https://` at the front becomes `http://`, and the rest is rewritten on its own. Together with the lemma above this determines the output of `StripBody` and of `Text.ReplaceAll` on every body. |
| SslStrip.StripBodyExample | plugins/sslstrip.py:58 | `go to https://bank.com` becomes `go to http://bank.com`. |
| Text.ReplaceAllCopiesPrefix | plugins/sslstrip.py:58 | `Text.ReplaceAll` copies a stretch where the pattern does not start through unchanged. |
| Text.ReplaceAllAtOccurrence | plugins/sslstrip.py:58 | `Text.ReplaceAll` turns a leading occurrence into the replacement and continues after it, so occurrences never overlap. |
| SslStrip.ReplaceLeavesNoHttps | plugins/sslstrip.py:58 | Replacing every `https://` by `http://` cannot create a new `https://`. |
| SslStrip.StripBodyIdempotent | plugins/sslstrip.py:58 | A second body rewrite changes nothing. |
| Text.ReplaceAllLength | plugins/sslstrip.py:58 | A non-overlapping replace-all changes the length by (replacement − pattern length) per occurrence. |
| Text.ReplaceAllIdentity | plugins/sslstrip.py:58 | With a shorter replacement, the text is unchanged exactly when the pattern does not occur. |
| SslStrip.StripLocation | plugins/sslstrip.py:64-70 | If the first `Location` value starts with `https://`, the header becomes the single value `http://` + the rest. Otherwise the headers are untouched. The registry gains exactly the URL's host, and only when that host is non-empty. Headers under other names are unchanged. |
| Text.ReplaceFirstOfPrefix | plugins/sslstrip.py:70 | `Text.ReplaceFirst` on a string that starts with the pattern swaps just that prefix and keeps the rest. |
| Headers.Set | plugins/sslstrip.py:70 | After `h[k] = v`, `k` has the single value `v`. Fields under other names are unchanged. |
| SslStrip.DirectiveLength | plugins/sslstrip.py:75 | A match starts at a position exactly when `upgrade-insecure-requests` occurs there, ignoring case. The match covers the directive and the maximal run of `;` and whitespace after it. |
| SslStrip.DirectiveMatches | plugins/sslstrip.py:73-75 | The substitution pattern matches somewhere exactly when the `re.search` guard on line 73 succeeds. |
| SslStrip.CutDirectiveSpec | plugins/sslstrip.py:75 | `CutDirective` keeps the remaining characters in order. It changes the value exactly when the directive occurs, ignoring case. |
| Text.DeleteMatchesIdentity | plugins/sslstrip.py:75 | A match-deleting substitution is the identity exactly when no position starts a match. |
| Text.DeleteMatchesKeepsOrder | plugins/sslstrip.py:75 | The result of a match-deleting substitution is a subsequence of its input. |
| Text.DeleteMatchesCopiesPrefix | plugins/sslstrip.py:75 | A stretch where no match starts is copied through unchanged. |
| Text.DeleteMatchesKeepsHead | plugins/sslstrip.py:75 | The same on one string: the first `k` characters, none of which starts a match, come out unchanged in front of the substitution of the rest. |
| SslStrip.StripCsp | plugins/sslstrip.py:72-75 | If the first CSP value names the directive, the header becomes that value with every directive cut. Otherwise the headers are untouched. Other names are unchanged. |
| SslStrip.CutDirectiveExample | plugins/sslstrip.py:75 | `default-src 'self'; upgrade-insecure-requests; script-src 'self'` becomes `default-src 'self'; script-src 'self'`. |
| SslStrip.CutDirectiveAround | plugins/sslstrip.py:75 | The directive and its trailing separators are cut. The text before and after is kept. |
| SslStrip.CutDirectiveNested | plugins/sslstrip.py:75 | `upgrade-upgrade-insecure-requestsinsecure-requests` is cut to a fresh `upgrade-insecure-requests`. |
| SslStrip.CutDirectiveNotIdempotent | plugins/sslstrip.py:75 | A second CSP cut can change a value that the first cut produced. |
| SslStrip.SecureFlagLength | plugins/sslstrip.py:79 | A match starts at a position exactly when `;`, optional whitespace and lower-case `secure` begin there. The match ends right after `secure` and the maximal run of whitespace that follows it. |
| SslStrip.CutSecureFlagSpec | plugins/sslstrip.py:79 | `CutSecureFlag`: the cookie keeps its other characters in order. It is unchanged exactly when it carries no `;secure` flag. |
| SslStrip.CutSecureFlagExample | plugins/sslstrip.py:79 | `id=1; secure; HttpOnly` becomes `id=1; HttpOnly`. |
| SslStrip.CutSecureFlagKeepsCapitalised | plugins/sslstrip.py:79 | `id=1; Secure` is left unchanged, because the pattern is case-sensitive. |
| SslStrip.CutSecureFlagNotIdempotent | plugins/sslstrip.py:79 | `x;secu;securere` is cut to `x;secure`, which a second cut turns into `x`: the cookie rewrite is not idempotent. |
| SslStrip.StripCookies | plugins/sslstrip.py:77-80 | The `Set-Cookie` values are the old ones with the flag cut, in the same number and order. Every field keeps its position and name. Other fields are unchanged. |
| Headers.SetAll | plugins/sslstrip.py:80 | After `set_all(k, vs)`, `get_all(k)` is `vs`. Fields under other names are unchanged. |
| Headers.SetAllInPlace | plugins/sslstrip.py:80 | Writing back as many values as there are fields rewrites them in place. |
| Headers.SetAllCurrentValues | plugins/sslstrip.py:80 | Writing back the values just read is the identity. |
| SslStrip.RewriteResponseSpec | plugins/sslstrip.py:52-80 | The whole of `RewriteResponse`: enforcement headers gone; body free of `https://` and shorter by the occurrence count; `Location` downgraded or untouched; registry = old ∪ {the redirect host}; CSP cut or untouched; cookies mapped one by one; the fields under every other name come out exactly as they went in, in the same order across names. |
| SslStrip.RewriteResponseKeepsOthers | plugins/sslstrip.py:52-80 | The fields under names the rewrite does not touch keep their values and their order relative to one another. |
| SslStrip.RewriteResponseTwice | plugins/sslstrip.py:58-70 | A second pass learns no host and leaves the body and `Location` alone. |
| SslStrip.SecondPassSeesNoHttpsRedirect | plugins/sslstrip.py:65-70 | After the rewrite, `Location` never starts with `https://`. |
| SslStrip.RewriteResponseFixedPoint | plugins/sslstrip.py:52-80 | A response with nothing to strip is returned unchanged, with the registry unchanged. |
| SslStrip.RewriteResponseTwiceNoOp | plugins/sslstrip.py:52-80 | If the first pass leaves no directive and no secure flag, the second pass changes nothing. |
| Session.Run | plugins/sslstrip.py:28 | Running a session rewrites every exchange: one output exchange per input exchange. |
| Session.Step | plugins/sslstrip.py:28 | One exchange extends the registry by exactly the host its response's HTTPS redirect names. |
| Session.RunRegistry | plugins/sslstrip.py:28 | Over a session the registry only grows. It ends as the initial hosts plus exactly the hosts some response redirected to over HTTPS. |
| Session.RunUpgradesLearnedHosts | plugins/sslstrip.py:42-49 | Request `k` goes out over HTTPS to its pretty host exactly when that host was registered initially or learned from an earlier response. Otherwise its scheme, host and port are unchanged. |
| Session.RunStepAt | plugins/sslstrip.py:28 | Exchange `k` is rewritten with the registry that the first `k` exchanges left. |
| Session.RedirectThenUpgrade | plugins/sslstrip.py:42-70 | An HTTPS redirect to a host reaches the browser as HTTP and makes the next request to that host go out over HTTPS. |
| Session.FirstRequestUntouched | plugins/sslstrip.py:28 | With the registry empty at start-up, the first request keeps its scheme and port. |
| PasswordCapture.FieldTables | plugins/parserhttp.py:15-22 | The tables have 38 and 18 entries. The missing comma makes `login_passwordpasswort` one entry, and there is no `passwort` entry. |
| PasswordCapture.Search | plugins/parserhttp.py:25 | A position found is at or after the start of the search and leaves room for the name, `=` and at least one value character. |
| PasswordCapture.SearchSpec | plugins/parserhttp.py:25 | The search finds the leftmost position where `name=` (ignoring case) is followed by a character other than `&`, and finds nothing when no such position exists. |
| PasswordCapture.FindField | plugins/parserhttp.py:25-27 | A text found is longer than the name and no longer than the content. |
| PasswordCapture.FindFieldSpec | plugins/parserhttp.py:25-27 | A field is found exactly when the pattern matches somewhere. The text found is the leftmost match, copied with the content's own case: the name, `=`, and a non-empty run without `&` that ends at `&` or at the end. |
| PasswordCapture.LastMatch | plugins/parserhttp.py:24-31 | A table yields a result exactly when some entry matches. The result is the match of the highest-index matching entry. |
| PasswordCapture.LastMatchIs | plugins/parserhttp.py:24-31 | When entry `j` matches and no later entry does, the table's result is entry `j`'s match. |
| PasswordCapture.ScanFields | plugins/parserhttp.py:24-31 | The front-to-back loop that overwrites on every hit ends with the last matching entry's match. |
| PasswordCapture.LastMatchShape | plugins/parserhttp.py:24-31 | A table's result is the leftmost match of its highest matching entry and has the `name=value` shape. |
| PasswordCapture.GetPasswordPost | plugins/parserhttp.py:33-34 | A pair comes back exactly when some user entry and some password entry match. |
| PasswordCapture.GetPasswordPostSpec | plugins/parserhttp.py:24-34 | Each half of the pair is the leftmost match of the highest matching entry of its table, shaped `name=value`. |
| PasswordCapture.ReportedCredentials | plugins/parserhttp.py:39-46 | A pair is reported only when both texts, `name=` included, are at most 75 characters. A found pair goes unreported only when one of them is longer. |
| PasswordCapture.FindFieldIn | plugins/parserhttp.py:25-27 | A field spelled in any case, preceded by text that cannot start it and followed by a value up to `&` or the end, is found with its own spelling. |
| PasswordCapture.FindFieldExamples | plugins/parserhttp.py:25-27 | The search is unanchored, so `id` finds `id=bob` inside `userid=bob`. It ignores case, so `username` finds `UserName=Bob` and keeps the content's spelling. |
| PasswordCapture.FindFieldLoginForm | plugins/parserhttp.py:25-31 | In `username=alice&password=secret123`, `username` finds `username=alice` and `password` finds `password=secret123`. |
| PasswordCapture.LoginFormCaptured | plugins/parserhttp.py:24-46 | For `username=alice&password=secret123` the returned pair is `("username=alice", "password=secret123")`, and it is reported, because no later table entry matches that body. |

## Left out

- The `<meta … http-equiv=Content-Security-Policy … upgrade-insecure-requests …>` body substitution (plugins/sslstrip.py:61-62) is not modelled, because its backtracking regex would need a regex engine. The body clauses of `StripBody` and `RewriteResponseSpec` describe line 58 alone. Line 62 can change that result: the body `https<meta http-equiv="Content-Security-Policy" content="upgrade-insecure-requests">://x` holds no `https://` after line 58, but deleting the tag on line 62 yields `https://x`. The final body's length then also differs from the one stated.
- `urllib.parse.urlparse(location).hostname` (plugins/sslstrip.py:67) is a parameter, `hostOf`. The empty string stands for "no host name". The URL parser is not part of this model.
- mitmproxy's header and flow objects are not part of this model. `Headers` follows their documented multidict behaviour:
  - `pop` drops every field with the name.
  - `get` and `[]` read the first value.
  - `set_all` rewrites the existing fields in place, drops surplus fields and appends extra values.
  - `h[k] = v` is `set_all(k, [v])`.
  - A library version that folds repeated fields into one comma-joined value on `[]` would differ when `Location` or `Content-Security-Policy` is repeated.
- `pretty_host`, `decoded(...)` and the content encoding are inputs. Bodies and header values are already-decoded `string`s. UTF-8 decoding (plugins/parserhttp.py:42-43) is the identity, so the `UnicodeDecodeError` path (lines 53-54) is absent.
- Exceptions are absent: every step is total.
  - The bare `except: pass` (plugins/sslstrip.py:81-82) is not modelled.
  - As written, the handler raises in one of two places, and the `except` skips every step after the raise.
  - Under Python 3, line 58 calls `replace` on a bytes body with str arguments and raises for every response. Nothing from line 58 on runs: the body, `Location`, CSP and cookies all stay as they were.
  - Under Python 2, lines 58 and 62 run. `urllib.parse` does not exist, so line 67 raises, but only for a response whose `Location` starts with `https://`. That response keeps its `Location`, CSP and cookies. Every other response gets the CSP and cookie steps.
  - So under either version `secure_hosts` never gains a host, and the upgrade on lines 42-49 never fires. The model follows the evident intent, in which `Location` is downgraded and its host learned.
- Logging (plugins/parserhttp.py:37, 47-52, 55) is output only and is left out.
- The no-op `PasswordCapture.response` and the plugin metadata are left out.
- Concurrency: hooks that run in parallel would share `secure_hosts`. `Session` runs exchanges strictly one after another, each request before its own response.
- Case folding is ASCII only, as for byte-string patterns without the `UNICODE` flag.

## Behaviour worth knowing

The model follows the code in these places, where a plain reading suggests otherwise:

- The cookie pattern `;\s*secure\s*` on line 79 has no `IGNORECASE` flag. `; Secure` and `; SECURE` are kept (`CutSecureFlagKeepsCapitalised`).
- The response rewrite is not idempotent for CSP. Cutting `upgrade-insecure-requests` out of the middle of `upgrade-upgrade-insecure-requestsinsecure-requests` rebuilds the directive, and a second pass cuts that too (`CutDirectiveNested`, `CutDirectiveNotIdempotent`). For the body, the registry and `Location`, a second pass changes nothing (`RewriteResponseTwice`).
- The cookie cut is not idempotent either. Cutting the flag out of `x;secu;securere` joins the halves into `x;secure`, and a second pass leaves `x` (`CutSecureFlagNotIdempotent`).
