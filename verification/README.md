# SURF extension server: per-client domain overrides

This project models the decision store behind the SURF browser extension's
server (`extension.py`). A client (identified by its remote address, with
every `::ffff:` removed, wherever it occurs) asks whether a domain is blocked
for it, grants itself a temporary (30-minute) or permanent allowance for a
domain, or reports a domain as a false positive. Every domain is first turned
into a domain key: lower-cased, with one leading `www.` removed. Policy state
lives in a TTL key/value store (Redis) under the keys
`block_mark:{client}:{key}`, `allow:{client}:{key}` (TTL 1800 s) and
`whitelist:{client}:{key}` (no TTL); the reports and all requests are counted
by Prometheus counters.

Files:

- `wrappers.dfy`: the `Option` datatype.
- `names.dfy`: `Lower` (`str.lower`), `PredictName` (`get_predict_name`),
  `RemoveAll` (`str.replace(pat, '')`) and `ClientIp`, with their lemmas.
- `store.dfy`: store entries with an optional expiry second, `Lookup` (GET)
  and the class `TtlStore` (entries plus clock; SET, SETEX, time passing).
- `metrics.dfy`: labelled counters as a map from label to count, and the
  class `Registry` holding the request counter and the false-positive counter.
- `extension.dfy`: the key layout, `CheckBlock` (the `/check` handler, a pure
  lookup), `AllowDomain` (`/allow`), `ReportFalsePositive`
  (`/report-false-positive`), `BeforeRequest`, and the lemmas relating them.

What the code does, and the model follows:

- `check_block` consults only the `block_mark:` key. It never reads `allow:`
  or `whitelist:`, so an allowance does not hide a block mark from the status
  lookup (`Extension.AllowKeepsCheck`). A precedence order of whitelist over
  temporary allowance over block mark is described for the system but is not
  in this code.
- `check_block` tests the raw domain for emptiness before normalising, so
  `www.` is looked up under the empty domain key; `report_false_positive`
  normalises first, so `www.` (any letter case) is rejected with the 400 error.
- Nothing in the modelled code writes `block_mark:` entries; the store's
  initial contents are an input (`Store.TtlStore.constructor`).
- The client identity removes `::ffff:` wherever it occurs, not only as a
  leading IPv6-mapped-IPv4 marker: the text before the leftmost marker is
  kept and the rest is processed in turn (`Names.ClientIpRemovesEveryMarker`),
  so `2001:db8::ffff:1.2.3.4` becomes `2001:db81.2.3.4`
  (`Names.ClientIpEmbeddedMarker`) and `::ffff:::ffff:1` becomes `1`
  (`Names.ClientIpTwoMarkers`). Distinct remote addresses can therefore already
  share a client identity, `1::ffff:23` and `12::ffff:3` both become `123`
  (`Names.ClientIpCollision`), and then share every key for every domain.
- Apart from that, the key layout `{namespace}:{client}:{key}` is unambiguous
  when domain keys contain no colon (`Extension.StoreKeyInjective`) and also
  when client identities contain no colon, as every IPv4 client's does
  (`Extension.StoreKeyInjectiveForColonFreeClients`); an allowance for one
  pair then leaves every other pair's allowances alone
  (`Extension.AllowIsolatesPairs`,
  `Extension.AllowIsolatesPairsForColonFreeClients`). A layout collision
  needs a colon in both: an IPv6 client and a domain key such as `5:x.com` can
  share a key with another IPv6 client (`Extension.StoreKeyCollision`).

## Model

| member | source | states |
|---|---|---|
| `Names.Lower` | extension.py:48 | the lower-cased string has the input's length and no upper-case letter |
| `Names.PredictName` | extension.py:47-51 | the domain key has no upper-case letter, is no longer than the input, and putting back `www.` when the lower-cased input started with it gives the lower-cased input; otherwise it is the lower-cased input |
| `Names.PredictNameIgnoresCase` | extension.py:48 | two domains that agree up to letter case have the same domain key |
| `Names.PredictNameIgnoresWwwPrefix` | extension.py:49-50 | prefixing a domain by `www.` in any letter case does not change its key (when the lower-cased domain does not itself start with `www.`), and that key is the lower-cased domain |
| `Names.PredictNameEmpty` | extension.py:47-51 | the domain key is empty exactly for the empty domain and for `www.` in any letter case |
| `Names.PredictNameIdempotentIff` | extension.py:49-51 | normalising a domain key again changes it exactly when it still starts with `www.` |
| `Names.PredictNameExamples` | extension.py:47-51 | `WWW.Example.COM`, `www.example.com` and `example.com` all have the key `example.com` |
| `Names.PredictNameStripsOnce` | extension.py:49-50 | only one prefix is stripped: `www.www.x` keys as `www.x`, which keys as `x`; `www.` keys as the empty string |
| `Names.RemoveAll` | extension.py:56 | removing every occurrence of a non-empty pattern never lengthens the string |
| `Names.RemoveAllShortensIff` | extension.py:56 | the removal shortens the string exactly when the pattern occurs in it, and returns a string without an occurrence unchanged |
| `Names.ClientIp` | extension.py:56 | the client identity is no longer than the address, and equals it exactly when the address does not contain `::ffff:`; for every other address `Names.ClientIpRemovesEveryMarker` gives it from the leftmost marker on |
| `Names.ClientIpOfMapped` | extension.py:81 | `::ffff:` followed by a colon-free (dotted IPv4) address gives that address |
| `Names.ClientIpExample` | extension.py:56 | `::ffff:1.2.3.4` gives `1.2.3.4` |
| `Names.RemoveAllAfterClearPrefix` | extension.py:56 | the leftmost occurrence of the pattern is removed, the text before it is kept, and the rest is processed in turn |
| `Names.ClientIpRemovesEveryMarker` | extension.py:56 | for any address, the text before its leftmost `::ffff:` is kept, that marker is removed and the rest of the address is processed the same way, so every marker goes |
| `Names.NoMarkerBefore` | extension.py:56 | no marker starts inside a prefix that holds no `::` and does not end with `:` (such as `2001:db8`) |
| `Names.ClientIpOfColonFree` | extension.py:56 | a colon-free (IPv4) address is its own client identity |
| `Names.ClientIpEmbeddedMarker` | extension.py:56 | the IPv6 peer `2001:db8::ffff:1.2.3.4` gets the identity `2001:db81.2.3.4` |
| `Names.ClientIpOneMarker` | extension.py:56 | one `::ffff:` after a prefix holding no `::` and before a colon-free tail is dropped and the parts are joined |
| `Names.ClientIpTwoMarkers` | extension.py:56 | `::ffff:::ffff:1` gives `1`: every marker is removed, not only the leading one |
| `Names.ClientIpCollisionLeft` | extension.py:56 | `1::ffff:23` gives `123` |
| `Names.ClientIpCollisionRight` | extension.py:56 | `12::ffff:3` gives `123` |
| `Names.ClientIpCollision` | extension.py:56 | the distinct remote addresses `1::ffff:23` and `12::ffff:3` get the same client identity `123` |
| `Store.Live` | extension.py:85 | an entry written without a TTL is always readable; one whose expiry second has passed is not |
| `Store.ExpiredStaysExpired` | extension.py:85 | an expired entry stays expired at every later time |
| `Store.Lookup` | extension.py:64 | GET returns the stored value exactly when the key is present and not expired |
| `Store.TtlStore.constructor` | extension.py:23 | the store starts with the given entries at the given time |
| `Store.TtlStore.Set` | extension.py:89 | SET writes the key with no expiry and changes nothing else |
| `Store.TtlStore.SetEx` | extension.py:85 | SETEX writes the key readable until now + ttl and changes nothing else |
| `Store.TtlStore.Advance` | extension.py:85 | time passes without any write; used by `Extension.TempAllowanceLapses` |
| `Metrics.Bump` | extension.py:102 | incrementing a labelled counter adds one to that child, creating it at zero, and leaves every other child unchanged |
| `Metrics.Registry.constructor` | extension.py:26-45 | both counters start empty |
| `Metrics.Registry.IncRequests` | extension.py:112 | the request counter grows by one; the report counters are unchanged |
| `Metrics.Registry.IncFalsePositive` | extension.py:102 | only the named report counter grows, by one |
| `Extension.StoreKey` | extension.py:64 | a key starts with its namespace and a colon, ends with the domain key, and is two characters longer than its three parts; injectivity is `Extension.StoreKeyInjective` and `Extension.StoreKeyInjectiveForColonFreeClients`, the ambiguity `Extension.StoreKeyCollision` |
| `Extension.BlockMarkKey` | extension.py:64 | the key the status lookup reads is in the `block_mark:` namespace |
| `Extension.AllowKey` | extension.py:85 | the temporary-allowance key is in the `allow:` namespace and is never a block mark; isolation between pairs is `Extension.AllowIsolatesPairs` |
| `Extension.WhitelistKey` | extension.py:89 | the permanent-allowance key is in the `whitelist:` namespace and is never a block mark |
| `Extension.AllowTarget` | extension.py:83-89 | mode `temp` selects the `allow:` key and every other mode the `whitelist:` key; neither is a block mark |
| `Extension.StoreKeyInjectiveForColonFreeClients` | extension.py:85-89 | within one namespace, a key whose client identity has no colon determines its client and its domain key, whatever the domain key holds |
| `Extension.CheckReply.HttpStatus` | extension.py:58-59 | the status lookup answers 400 exactly for the missing-domain reply and 200 otherwise |
| `Extension.ReportReply.HttpStatus` | extension.py:98-99 | the report answers 400 exactly when it is rejected and 200 otherwise |
| `Extension.StoreKeyInjective` | extension.py:85-89 | within one namespace, a key whose domain key has no colon determines its client and its domain key |
| `Extension.StoreKeyCollision` | extension.py:85-89 | client `2001:db8::1` with key `5:x.com` and client `2001:db8::1:5` with key `x.com` share one whitelist key |
| `Extension.CheckBlock` | extension.py:53-74 | a missing or empty domain gives the 400 error; otherwise the reply is a block, carrying the domain key and the stored score, exactly when the client's block mark for the domain key holds a readable non-empty value, and "not found" otherwise; the store is only read |
| `Extension.CheckBlockReadsOnlyBlockMarks` | extension.py:64 | two stores that agree on every key starting with `block_mark:` give the same status reply |
| `Extension.AllowWrite` | extension.py:83-90 | an allowance (over)writes exactly one key with `"1"`: `allow:` with expiry now + 1800 for mode `temp`, `whitelist:` with no expiry for any other mode; every other key keeps its entry |
| `Extension.AllowDomain` | extension.py:76-90 | the store becomes the allowance's write at the current time, the clock is unchanged, and the reply is always `success` with the domain key |
| `Extension.AllowIdempotent` | extension.py:83-90 | granting the same allowance twice at the same time leaves the same store as granting it once |
| `Extension.AllowKeepsCheck` | extension.py:85-89 | after any allowance, the status reply for every client and domain, at any time, is what it was before |
| `Extension.TempAllowExpires` | extension.py:85 | from the moment of the grant on, a temporary allowance reads as `"1"` up to 1800 seconds after it was granted and as absent afterwards |
| `Extension.TempAllowanceLapses` | extension.py:85 | granting a temporary allowance and letting 1801 seconds pass leaves the `allow:` key unreadable and every status reply as it was before the grant |
| `Extension.WhitelistNeverExpires` | extension.py:89 | a permanent allowance reads as `"1"` at every later time |
| `Extension.AllowIsolatesPairs` | extension.py:85-89 | an allowance for one (client, domain key) does not change the allowances of any other pair, when domain keys have no colon |
| `Extension.AllowIsolatesPairsForColonFreeClients` | extension.py:85-89 | an allowance for one (client, domain key) does not change the allowances of any other pair when clients have no colon (every IPv4 client), whatever the domain keys hold |
| `Extension.ReportFalsePositive` | extension.py:92-104 | the report is rejected exactly when the domain key is empty, then counting nothing; otherwise exactly the counter of the domain key grows by one; the request counter and the store are untouched |
| `Extension.ReportsShareCounter` | extension.py:95-102 | reports of `Ads.Example.com` and `ads.example.com` add two to the one counter `ads.example.com` |
| `Extension.BeforeRequest` | extension.py:110-112 | every request adds one to the request counter and leaves the report counters unchanged |

## Left out

- `Names.Lower`: maps only the ASCII letters `A`-`Z`; Python's `str.lower` also lower-cases other Unicode letters (and can change a string's length), which the model does not capture.
- `Extension.CheckBlock`: returns the stored score as the stored string; the conversion `float(stored_score)` and the server error it raises on a non-numeric value are floating-point parsing and are not modelled.
- Flask routing, query and JSON parsing, `jsonify` and the response messages: each handler takes its inputs as plain values (`domain` of `/check` as an optional string, `mode` of `/allow` as an optional string) and returns a small reply datatype; the human-readable messages are reduced to the domain key and a temporary/permanent flag.
- A missing `domain` in `/allow` and `/report-false-positive` makes the code fail on `None.lower()` before any check; the model takes `domain` as a string there and does not model that failure.
- Redis itself: the connection, `decode_responses`, per-key atomicity and concurrent requests are not modelled; the model is sequential. Time is whole seconds, and a key with a TTL is taken to be readable through its expiry second and gone after it.
- The `/metrics` exposition (`generate_latest`) and the unused latency histogram with its floating-point buckets.
- `app.py` (a classifier call with floating-point rounding and template rendering) and `block_server.py` (a static HTML page server) are not part of this model; nothing in the modelled code writes `block_mark:` entries.
- Module loading, `sys.path` set-up, `app.run` and the start-up messages.
