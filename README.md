# DNS-over-HTTPS relay: answer rewriting, modelled in Dafny

The relay in `node-functions/dns-query.js` does three things when it gets a DNS-over-HTTPS request:

- It forwards the request to the upstream resolver `cloudflare-dns.com`. The URL passes through one `replace` of the relay's host `doh.100172.xyz`. The headers pass through a `set` of `host` and four `delete`s of the `x-forwarded-*` headers.
- It decodes the upstream answer and applies a chain of guards to it. The question list must be present and hold exactly one question, the answer list must be present, and the question must be type A, class IN and not for the sentinel `cf.100172.xyz`.
- It checks every A answer against every line of the provider's published IPv4 CIDR list.

If some A answer lies in a listed range, the answers are replaced by those of a lookup of the sentinel's A records. Every CNAME the sentinel owns is then renamed to the question's name. The result is re-encoded, with the upstream status and status text and with the upstream headers minus `content-length`. Every other outcome returns the upstream response untouched, and that includes any exception a parser throws.

## How the model is laid out

- `Wrappers` holds `Option`.
- `Text` holds the string operations the relay uses: `split`, `String.prototype.replace` with a string pattern (which replaces the first occurrence only), and decimal digits.
- `Ipv4` holds dotted-decimal addresses as 32-bit values and `a.b.c.d/n` ranges. It has parsers that return `None` where ipaddr.js throws, and the containment test of RFC 4632 section 3.1, also proved equal to a bit-by-bit comparison of the top `n` bits.
- `Dns` holds the decoded message: `Option`s of question and record sequences. Record types are `A`, `CNAME` or other.
- `Http` holds a `HeaderSet` class, which is a mutable `Headers` object with `set` and `delete`, plus the request and upstream response records.
- `Settings` holds the three fixed host names as a `Config` value.
- `Forward` holds the forwarding rewrite.
- `Rewrite` holds the decision, in two forms:
  - the loops of the source as methods: the nested detection scan (`ScanLines`, `ScanAnswer`, `DetectProvider`), the in-place rename over an array (`RestoreOwners`), the header deletion (`ResponseHeaders`), and the whole guard chain (`ProxyRequest`);
  - the specification functions `ProviderMatch`, `RestoreAll` and `Decide`, which those methods are proved to compute.
  The lemmas state what the source promises about those functions.
- `Scenarios` holds the decision for one A answer against a one-line list, and the deployed range and sentinel.

These inputs are parameters rather than modelled:

- the decoded upstream message (`None` when decoding throws);
- the text body of the provider's list;
- the answers of the alias lookup (`None` when missing or when the lookup throws).

### Where the code and its description differ (the model follows the code)

- A CIDR line that does not parse is not skipped. `ipaddr.parseCIDR` throws, the `catch` runs, and the response is the untouched one. `split('\n')` turns a trailing newline into an empty last line, so a list body ending in a newline switches rewriting off for every response that has an A answer (`Rewrite.TrailingNewlineGivesBaseline`).
- Only CNAME records owned by the sentinel are renamed. An A record the alias lookup returns under the sentinel's name keeps that owner (`Scenarios.DeployedRenameExample`).
- This source has no strategy that replaces an A record inline with a CNAME to the sentinel. The only strategy is to swap the whole answer list.

## Model

| member | source | states |
|---|---|---|
| Text.Split | node-functions/dns-query.js:35 | `split` cuts at every separator: at least one part, no part contains the separator, and joining the parts with it gives back the input |
| Text.SplitJoin | node-functions/dns-query.js:35 | splitting a join of separator-free parts gives back exactly those parts |
| Text.SplitTrailingSeparator | node-functions/dns-query.js:35 | a trailing separator adds one empty last part and leaves the others as they were |
| Text.IndexOf | node-functions/dns-query.js:20 | finds the first occurrence of the pattern at or after the start, or reports that there is none |
| Text.ReplaceFirst | node-functions/dns-query.js:20 | with no occurrence the string is unchanged; otherwise exactly the first occurrence is replaced and all else is kept |
| Text.ReplaceFirstAfterPrefix | node-functions/dns-query.js:20 | when the prefix cannot hold the pattern, the occurrence right after it is the one replaced, whatever follows |
| Ipv4.OctetRoundTrip | node-functions/dns-query.js:109 | the decimal text of every octet parses back to it |
| Ipv4.OctetCanonical | node-functions/dns-query.js:109 | every text accepted as an octet is the canonical text of its value |
| Ipv4.AddressRoundTrip | node-functions/dns-query.js:108-109 | the dotted-decimal text of an A record's address parses back to that address |
| Ipv4.AddressCanonical | node-functions/dns-query.js:109 | every accepted address text is the dotted-decimal text of its value, so parsing is injective |
| Ipv4.CidrRoundTrip | node-functions/dns-query.js:111 | the text `a.b.c.d/n` of every range parses back to that range |
| Ipv4.InCidrIffTopBitsAgree | node-functions/dns-query.js:111 | `match` holds exactly when the top `n` bits of the address and of the network agree, bit by bit |
| Ipv4.SlashZeroContainsAll | node-functions/dns-query.js:111 | a `/0` range contains every address |
| Ipv4.SlashThirtyTwoIsEquality | node-functions/dns-query.js:111 | a `/32` range contains its own network address and nothing else |
| Ipv4.ShorterPrefixWidens | node-functions/dns-query.js:111 | an address in `net/n` is also in `net/m` for every `m <= n` |
| Ipv4.ExampleTexts | node-functions/dns-query.js:109-111 | "1.2.3.4", "1.2.3.0/24" and "1.2.4.0/24" parse to the values they spell |
| Ipv4.ContainmentExamples | node-functions/dns-query.js:111 | 1.2.3.4 lies in 1.2.3.0/24 and not in 1.2.4.0/24 |
| Http.HeaderSet.constructor | node-functions/dns-query.js:12 | `new Headers(init)` holds a copy of `init` |
| Http.HeaderSet.Set | node-functions/dns-query.js:13 | `set` adds the header or replaces its value and changes nothing else |
| Http.HeaderSet.Delete | node-functions/dns-query.js:15-18 | `delete` removes the header if present and changes nothing else |
| Forward.ForwardHeaders | node-functions/dns-query.js:12-18 | the forwarded headers have `host` set to the upstream host, none of the four `x-forwarded-*` headers, every other inbound header with its value, and nothing more |
| Forward.ForwardedFromIsUnique | node-functions/dns-query.js:12-18 | that description determines the header map completely |
| Forward.ForwardRequest | node-functions/dns-query.js:20-24 | the upstream request keeps the method and body, has the first occurrence of the relay's host in the URL replaced by the upstream host, and has the forwarded headers |
| Forward.ForwardUrlReplacesHostOnly | node-functions/dns-query.js:20 | for `https://doh.100172.xyz<path>` exactly the host becomes `cloudflare-dns.com`, and any later occurrence inside the path stays |
| Rewrite.ScanLines | node-functions/dns-query.js:110-114 | the inner loop fails exactly when some line is not a range; otherwise it reports whether some line's range contains the address |
| Rewrite.ScanAnswer | node-functions/dns-query.js:106-116 | one pass of the outer loop: a non-A answer gives no hit; an A answer fails when its data or any line does not parse, and otherwise hits when some range contains it |
| Rewrite.DetectProvider | node-functions/dns-query.js:103-117 | the nested scan computes `ProviderMatch`: it fails if some answer's scan fails, and otherwise reports whether some A answer hit |
| Rewrite.DetectionIgnoresOrder | node-functions/dns-query.js:103-117 | there is no early exit, so reordering the answers or the lines leaves the detection unchanged |
| Rewrite.NonAddressAnswersIgnored | node-functions/dns-query.js:107 | inserting a record that is not of type A anywhere among the answers leaves the detection unchanged |
| Rewrite.MalformedLineAborts | node-functions/dns-query.js:110-111 | once there is an A answer, one line that is not a range makes the scan throw, whatever the other lines say |
| Rewrite.MalformedAddressAborts | node-functions/dns-query.js:108-109 | an A answer whose data is not a dotted-decimal address makes the scan throw |
| Rewrite.WellFormedDetection | node-functions/dns-query.js:103-117 | with every A answer and every line well formed, the flag is set exactly when some A answer lies in some listed range |
| Rewrite.EmptyLineIsMalformed | node-functions/dns-query.js:111 | the empty line is not a range |
| Rewrite.TrailingNewlineAborts | node-functions/dns-query.js:35 | a list body ending in a newline makes the scan throw as soon as there is an A answer |
| Rewrite.RestoreOwners | node-functions/dns-query.js:125-131 | the in-place loop turns the array into the renamed answers: each sentinel-owned CNAME now belongs to the question's name and every other entry is as it was |
| Rewrite.RestoreAllChangesOnlySentinelOwners | node-functions/dns-query.js:125-131 | the renaming keeps the length and order, changes only the owner of the sentinel's CNAME records, and keeps every other field |
| Rewrite.NoSentinelOwnerRemains | node-functions/dns-query.js:125-131 | with a question name other than the sentinel, no CNAME owned by the sentinel is left |
| Rewrite.ResponseHeaders | node-functions/dns-query.js:133-134 | the rewritten response's headers are the upstream's minus `content-length` |
| Rewrite.ProxyRequest | node-functions/dns-query.js:76-147 | the guard chain, the scan, the alias check, the rename and the header rewrite together compute `Decide` |
| Rewrite.FailedGuardGivesBaseline | node-functions/dns-query.js:80-101 | a missing question list, a question count other than one, a missing answer list, a type other than A, a class other than IN, or the sentinel as the question name each give the untouched response |
| Rewrite.RewrittenExactlyWhen | node-functions/dns-query.js:76-147 | the response is rewritten exactly when the message decoded, the guards pass, some A answer matched with nothing thrown, and the alias lookup returned a non-empty list; in every other case it is the untouched response |
| Rewrite.TrailingNewlineGivesBaseline | node-functions/dns-query.js:143-147 | a list body with a trailing newline gives the untouched response for every message with an A answer |
| Rewrite.RewriteReplacesAnswers | node-functions/dns-query.js:125-131 | in a rewrite the answers are the alias answers in the same order, with only the sentinel's CNAME owners renamed; none of those remains; the id, flags, questions and other sections are kept |
| Rewrite.RewriteKeepsMetadata | node-functions/dns-query.js:133-139 | a rewritten response has the upstream status and status text, and every upstream header except `content-length`, with its value, and no others |
| Scenarios.FormattedRangeIsOneLine | node-functions/dns-query.js:35 | the text of one range holds no line break, so it splits into one line |
| Scenarios.SingleAnswerDetection | node-functions/dns-query.js:103-117 | a single A answer against a single well-formed range is detected exactly when the range contains its address |
| Scenarios.SingleAnswerScenario | node-functions/dns-query.js:76-147 | for an eligible query with one A answer and a non-empty alias answer list, an address inside the listed range gives the renamed alias answers with the upstream status and the headers without `content-length`, and one outside gives the untouched response |
| Scenarios.DeployedRangeExamples | node-functions/dns-query.js:111 | 104.16.0.1 lies in 104.16.0.0/12 and 8.8.8.8 does not |
| Scenarios.DeployedRenameExample | node-functions/dns-query.js:126-131 | with the deployed sentinel, its CNAME is renamed to the question's name, while the target's A record and an A record owned by the sentinel are kept as they are |

## Left out

- DNS wire decoding and encoding (`dnsPacket.decode` and `encode`, lines 59, 77 and 135) are a foreign library. The model starts from a decoded message, and a failed decode is the input `None`. A failure while re-encoding the rewritten message is not modelled.
- Network and HTTP plumbing is not modelled: the `fetch` calls, the `Promise.all` fan-out (lines 65-68), reading response bodies, and building `Response` objects. The upstream response, the list body and the alias answers are inputs.
- The alias lookup's own query (lines 40-54) is not modelled: it is a constant packet, and only the answers it returns matter.
- Logging (lines 79 and 144) has no effect on the result.
- ipaddr.js also accepts other address forms: octal, hexadecimal, fewer than four parts, and IPv6. Only four-part dotted decimal without leading zeros is accepted here, and any other text is malformed. dns-packet writes A record data in exactly that form.
- `Headers` is modelled as a map from lower-case names to one value. Case folding of header names and repeated headers are not modelled.
- Text.ReplaceFirst: `$` substitution patterns in the replacement string are not modelled. The relay's replacement `cloudflare-dns.com` contains no `$`.
- Rewrite.RestoreOwners: answers are values. The source mutates the answer objects the alias lookup returned, and the model does not capture that aliasing.
- The handlers `onRequestGet` and `onRequestPost` (lines 151-157) only call `proxyRequest`.
