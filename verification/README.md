# Client-IP resolution of the Speed-Test ISP lookup

This project models, in Dafny, the client-IP resolver of the Speed-Test
ISP lookup script: class `RemoteAddress` in `assets/php/getip.php`. Given
the address of the directly connected peer (`REMOTE_ADDR`, which may be
absent), the server variables that carry the request headers, and a
configuration (`useProxy`, `trustedProxies`, `proxyHeader`), the resolver
produces one IP string:

- the forwarded-for header is read only when proxying is enabled and the
  peer is absent or is a trusted proxy;
- a header that is unset, `""` or `"0"` is ignored (PHP's `empty`);
- the header is split on commas, each entry trimmed with PHP's default
  `trim` set (space, tab, line feed, carriage return, NUL, vertical tab),
  and every entry equal to a trusted proxy removed;
- the right-most survivor is the answer, unless there is none or it is
  `""` or `"0"` (PHP's `if ($ip)`), in which case the peer address is
  returned, or `""` without one.

Files:

- `wrappers.dfy` — `Option`, standing for PHP's `false`/`null` results.
- `php_strings.dfy` — module `PhpStrings`: the PHP built-ins the resolver
  is made of (`trim`, `explode`, `implode` as its inverse, `array_map('trim')`,
  `array_diff`, `array_pop`, string truthiness). Proved about them: what
  `trim` strips and that it is idempotent, the `explode`/`implode` round trip
  in both directions, membership, order and emptiness for `array_diff`, and
  that `array_pop` after `array_diff` yields the right-most survivor.
- `remote_address.dfy` — module `RemoteAddress`: the configuration and
  request records, `getIpAddressFromProxy` and `getIpAddress` as pure
  functions, the resolution properties as lemmas, and the worked scenarios
  of a deployment behind one trusted proxy.

The configuration is a parameter rather than the object fields of the
original; `RemoteAddress.Defaults` holds the values the file ships with
(`useProxy = false`, no trusted proxies, header `HTTP_X_FORWARDED_FOR`),
under which the proxy path is never taken (`RemoteAddress.DefaultsUsePeer`).
Two details of the code matter here: a header equal to `"0"` counts as
missing, and a right-most survivor of `""` or `"0"` falls back to the peer
address.

## Model

| member | source | states |
|---|---|---|
| `PhpStrings.SkipLeading` | assets/php/getip.php:68 | the left-hand scan of `trim`: every character it passes over is a trim character and it stops at the first one that is not, or at the end |
| `PhpStrings.SkipTrailing` | assets/php/getip.php:68 | the right-hand scan of `trim`, which never crosses the left-hand stop: every character it passes over is a trim character and it stops after the last one that is not |
| `PhpStrings.Trim` | assets/php/getip.php:68 | a trimmed entry has no trim character at either end and is no longer than the entry |
| `PhpStrings.TrimIsSlice` | assets/php/getip.php:68 | `trim` only removes characters at the ends: its result is a contiguous slice of the input and everything outside the slice is a trim character |
| `PhpStrings.TrimOfTrimmed` | assets/php/getip.php:68 | an entry with no trim character at its ends is left unchanged |
| `PhpStrings.TrimSpaced` | assets/php/getip.php:68 | the space that follows a comma in a header is removed, and nothing else of a trimmed entry |
| `PhpStrings.TrimIdempotent` | assets/php/getip.php:68 | trimming twice is trimming once |
| `PhpStrings.Explode` | assets/php/getip.php:67 | splitting on commas yields at least one piece, and joining the pieces with commas gives the header back |
| `PhpStrings.ExplodePiecesCommaFree` | assets/php/getip.php:67 | no piece of a split header contains a comma |
| `PhpStrings.ExplodePrefix` | assets/php/getip.php:67 | comma-free text in front of a string becomes part of its first piece and leaves the other pieces alone |
| `PhpStrings.ExplodeCommaFree` | assets/php/getip.php:67 | a header without a comma is one piece, itself |
| `PhpStrings.ExplodeTwo` | assets/php/getip.php:67 | two comma-free parts joined by one comma split into exactly those two parts |
| `PhpStrings.ExplodeImplode` | assets/php/getip.php:67 | splitting a comma-join of comma-free pieces gives exactly those pieces back (the other half of the round trip) |
| `PhpStrings.TrimAllTrimmed` | assets/php/getip.php:68 | after `array_map('trim', ...)` there are as many entries as before, none has a trim character at either end, and mapping `trim` again changes nothing |
| `PhpStrings.TrimAllMembers` | assets/php/getip.php:68 | the entries after `array_map('trim', ...)` are exactly the trimmed pieces |
| `PhpStrings.ArrayDiff` | assets/php/getip.php:69 | no survivor is a trusted proxy, and there are no more survivors than entries |
| `PhpStrings.ArrayDiffMembers` | assets/php/getip.php:69 | the survivors are exactly the entries that are not trusted proxies: every survivor is an untrusted entry, and every untrusted entry survives |
| `PhpStrings.ArrayDiffAppend` | assets/php/getip.php:69 | removing trusted entries keeps order: it distributes over concatenation |
| `PhpStrings.ArrayDiffEmpty` | assets/php/getip.php:69-72 | nothing survives exactly when every entry is a trusted proxy |
| `PhpStrings.ArrayPop` | assets/php/getip.php:72 | `array_pop` gives nothing exactly for an empty array, and otherwise one of its elements |
| `PhpStrings.LastSurvivorIsRightmost` | assets/php/getip.php:69-72 | the right-most untrusted entry, with only trusted entries after it, is what `array_pop` returns after `array_diff` |
| `PhpStrings.PoppedSurvivorIsRightmost` | assets/php/getip.php:69-72 | conversely, what `array_pop` returns after `array_diff` is an untrusted entry with only trusted entries after it |
| `PhpStrings.PoppedTrimmedIsRightmost` | assets/php/getip.php:68-72 | the same after trimming: what is popped is the trimmed form of an entry, untrusted, and every later entry trims to a trusted proxy |
| `RemoteAddress.IpAddressFromProxy` | assets/php/getip.php:55-73 | a proxy-derived address exists only on a trusted path with a usable header, and is never a trusted proxy |
| `RemoteAddress.IpAddress` | assets/php/getip.php:38-48 | the result is the peer address (or `""`), or else a truthy, untrusted proxy-derived address reached through a trusted path |
| `RemoteAddress.ProxyDisabledUsesPeer` | assets/php/getip.php:41-58 | with proxying off the result is the peer address or `""`, whatever the server variables hold |
| `RemoteAddress.DefaultsUsePeer` | assets/php/getip.php:17-31 | with the shipped configuration the result is always the peer address or `""` |
| `RemoteAddress.UntrustedPeerIgnoresHeader` | assets/php/getip.php:47-58 | a present peer that is not a trusted proxy gets its own address, whatever the header says |
| `RemoteAddress.MissingHeaderFallsBack` | assets/php/getip.php:47-64 | an unset, `""` or `"0"` header gives the peer address or `""` |
| `RemoteAddress.FalsyCandidateFallsBack` | assets/php/getip.php:42-47 | a proxy-derived `""` or `"0"` is rejected and the peer address or `""` is returned |
| `RemoteAddress.TruthyCandidateWins` | assets/php/getip.php:41-44 | `if ($ip)` with `IsTruthy`: a proxy-derived address other than `""` and `"0"` is returned unchanged (the other branch of `FalsyCandidateFallsBack`) |
| `RemoteAddress.EmptyOnlyWithoutPeer` | assets/php/getip.php:41-47 | `PeerOrEmpty`, the `?? ''` fallback: the result is `""` exactly when the peer address is absent or `""` and the proxy path gave nothing truthy |
| `RemoteAddress.ClosedGuardIgnoresHeaders` | assets/php/getip.php:57-58 | `ProxyTrusted`, the guard: when proxying is off or the peer is a present untrusted address, the result is the same for every set of server variables |
| `RemoteAddress.UsableHeaderIsRead` | assets/php/getip.php:57-72 | the other side of the guard and of `empty`: with the guard open and the header set to something truthy, the proxy result is the last candidate of that header |
| `RemoteAddress.CandidatesMembers` | assets/php/getip.php:67-69 | `Candidates`, the explode/trim/array_diff pipeline: a string is a candidate exactly when it is a trimmed header entry and not a trusted proxy |
| `RemoteAddress.RightmostUntrustedWins` | assets/php/getip.php:42-72 | on a trusted path with a usable header, the trimmed right-most untrusted entry is the result when it is truthy |
| `RemoteAddress.AllTrustedFallsBack` | assets/php/getip.php:42-72 | when every trimmed header entry is a trusted proxy, the result is the peer address or `""` |
| `RemoteAddress.PoppedCandidateIsRightmost` | assets/php/getip.php:67-72 | the last candidate of a header is one of its trimmed entries, untrusted, with only trusted entries after it |
| `RemoteAddress.ProxyResultIsRightmostUntrusted` | assets/php/getip.php:55-73 | a proxy-derived address is the trimmed right-most untrusted entry of the configured header |
| `RemoteAddress.ProxyResultTrimmed` | assets/php/getip.php:67-72 | a proxy-derived address has no trim character at either end |
| `RemoteAddress.AbsentPeerUsesHeader` | assets/php/getip.php:42-57 | with proxying on and no peer address the header still decides: its last candidate when truthy, otherwise `""` |
| `RemoteAddress.OneEntryChain` | assets/php/getip.php:67-68 | a trimmed header without a comma splits and trims into one entry, itself |
| `RemoteAddress.TwoEntryChain` | assets/php/getip.php:67-68 | a header `client, proxy` of two trimmed, comma-free entries splits and trims into exactly `client` and `proxy` |
| `RemoteAddress.ProxiedClientResolved` | assets/php/getip.php:38-73 | a client behind one trusted proxy, which is the peer and sends `client, proxy`, resolves to the client |
| `RemoteAddress.OnlyProxyInHeaderFallsBack` | assets/php/getip.php:38-73 | when the header names only the trusted proxy that is the peer, the peer address is returned |
| `RemoteAddress.TrailingCommaChain` | assets/php/getip.php:67-68 | a header `client, ` splits and trims into two entries, the last of them `""` |
| `RemoteAddress.TrailingCommaFallsBack` | assets/php/getip.php:38-73 | a header `client, ` leaves `""` as the right-most survivor, which is rejected, so the peer address is returned |

## Left out

- `getIspFromIp` (assets/php/getip.php:82-122): an outbound HTTPS call to a geolocation service through cURL, its error echo and `json_decode`; this is network I/O and foreign code. Its only logic is the `'Desconhecido'` default for a missing ISP field.
- The script driver, the JSON output and the `ini_set` error display (assets/php/getip.php:1-5, 124-132): I/O glue.
- The embedded credential (assets/php/getip.php:90): not behaviour.
- `in_array` at assets/php/getip.php:57 uses PHP's loose comparison, under which distinct numeric strings such as `"10"` and `"1e1"` compare equal; the model uses plain string equality there (as `array_diff` itself does).
- `$_SERVER` is modelled as a separate optional peer address and a map of the other server variables, so a `proxyHeader` configured as `REMOTE_ADDR` itself is not modelled as reading the same entry.
- Server variables are strings only; PHP arrays in `$_SERVER` and non-string configuration values are not modelled.
- `array_diff` keeps PHP array keys; the model keeps only the order of the survivors, which is all `array_pop` looks at.
