# Zend_Validate_EmailAddressViaSmtp — a verified model of its address check

`Zend_Validate_EmailAddressViaSmtp` is a Zend Framework validator. It aims to decide
whether an e-mail address is deliverable by asking the address's mail servers over
SMTP. This project models the deterministic part of it in Dafny:

- `isValid`. It rejects a non-string value with `INVALID`. It trims the value with
  PHP's `trim`, matches it against `/^(.*)@(.*)$/` and rejects a hostname PHP
  considers false with `INVALID_FORMAT`. Otherwise it hands `(username, hostname)`
  to `_checkNetwork`.
- The mail-server selection at the start of `_checkNetwork`. Without `dns_get_mx`
  it throws `Zend_Validate_Exception`. Otherwise it takes the MX hosts, or, when
  there are none, the address records of `gethostbynamel`. When neither gives
  anything it records `INVALID_MX_RECORD` and returns false.

Files:

- `php.dfy` (module `Php`): the PHP semantics the validator relies on. It holds
  the kinds of value `isValid` can receive, truthiness, and `trim` with its default
  character list `" \t\n\r\0\x0B"`.
- `pattern.dfy` (module `Pattern`): `preg_match` of `/^(.*)@(.*)$/`. It keeps
  PCRE's defaults: `.` does not match a line feed, and `$` also matches before one
  final line feed. The group captures are proved against a reference definition:
  "`(u, h)` is a way for the pattern to match, and no other match has a longer
  first group".
- `email_address_via_smtp.dfy` (module `EmailAddressViaSmtp`): the error keys, the
  verdict of `isValid` as functions (`ParseAddress`, `SelectMailServers`,
  `NetworkVerdict`, `Validate`), and the lemmas about them. It also holds a class
  `Validator`. Its methods `IsValid` and `CheckNetwork` follow the PHP statements
  and record error keys in an `errors` field, as `_error` does. They are proved
  equal to the functions.

DNS answers are inputs to the model (`Dns`: a snapshot of MX and address lookups),
and so is whether `dns_get_mx` exists on the system. A verdict of `Probe(username,
hostname, servers)` means control reaches the SMTP loop with those servers.

Points where the code may surprise a reader: the docblock of `isValid`
(src/Zend/Validate/EmailAddressViaSmtp.php:108-118) promises an address valid under
RFC 2822, but the code checks far less, and the model follows the code:

- The address is split at the LAST `@`, because the first group is greedy.
- The hostname `"0"` is rejected as well as `""`, because `!$hostname` is PHP
  truthiness.
- An empty username is accepted.
- A value with an internal line feed never matches.
- MX hosts are used in the order `dns_get_mx` returns them. The code never asks for
  the weights, so it does not sort them by preference.
- A missing `dns_get_mx` throws. It is not reported as a validation error.

## Model

| member | source | states |
|---|---|---|
| Php.Truthy | src/Zend/Validate/EmailAddressViaSmtp.php:130 | no contract of its own: PHP's conversion to boolean as `!$hostname` applies it; null, `""` and `"0"` are false; used through HostnameDecides and FalsyHostnameIsInvalidFormat |
| Php.IsTrimSpace | src/Zend/Validate/EmailAddressViaSmtp.php:127 | no contract of its own: the six characters `trim` strips by default, `" \t\n\r\0\x0B"`; every Trim row and `WellFormed` rest on it |
| Php.AllTrimSpace | src/Zend/Validate/EmailAddressViaSmtp.php:127 | no contract of its own: a string made only of characters `trim` strips, i.e. what `trim` may remove at either end |
| Php.IsTrimmed | src/Zend/Validate/EmailAddressViaSmtp.php:127 | no contract of its own: what `trim` returns, a string empty or with a kept character at both ends; Php.Trim ensures it and Php.TrimUnique shows every such string is a `trim` result |
| Php.TrimLeft | src/Zend/Validate/EmailAddressViaSmtp.php:127 | the front-trimmed string is no longer than the input and does not start with a strippable character |
| Php.TrimRight | src/Zend/Validate/EmailAddressViaSmtp.php:127 | the back-trimmed string is no longer than the input, keeps its first character and does not end with a strippable character |
| Php.Trim | src/Zend/Validate/EmailAddressViaSmtp.php:127 | `trim` leaves a string with no strippable character at either end, no longer than the input |
| Php.TrimLeftCut | src/Zend/Validate/EmailAddressViaSmtp.php:127 | `ltrim` only removes a prefix made of strippable characters |
| Php.TrimRightCut | src/Zend/Validate/EmailAddressViaSmtp.php:127 | `rtrim` only removes a suffix made of strippable characters |
| Php.TrimLeftPadding | src/Zend/Validate/EmailAddressViaSmtp.php:127 | strippable characters in front of a string that starts with a kept character are exactly what `ltrim` removes |
| Php.TrimRightPadding | src/Zend/Validate/EmailAddressViaSmtp.php:127 | strippable characters after a string that ends with a kept character are exactly what `rtrim` removes |
| Php.TrimCut | src/Zend/Validate/EmailAddressViaSmtp.php:127 | the input is strippable prefix + `trim` result + strippable suffix |
| Php.TrimUnique | src/Zend/Validate/EmailAddressViaSmtp.php:127 | any string without strippable ends, padded with strippable characters, trims back to exactly itself, so `trim` is determined by its specification |
| Php.TrimIgnoresPadding | src/Zend/Validate/EmailAddressViaSmtp.php:127 | adding strippable characters at either end does not change the result of `trim` |
| Php.TrimOfKeptLast | src/Zend/Validate/EmailAddressViaSmtp.php:127 | a value ending in a kept character loses only a prefix to `trim` |
| Php.TrimIdempotent | src/Zend/Validate/EmailAddressViaSmtp.php:127 | trimming twice is the same as trimming once |
| Pattern.CanMatch | src/Zend/Validate/EmailAddressViaSmtp.php:126 | no contract of its own: `(u, h)` is one way `/^(.*)@(.*)$/` can match `t` under PCRE's defaults: no line feed in either group, and `t` is `u + "@" + h` or that plus one final line feed; the reference MatchAddress is proved against |
| Pattern.MatchAddress | src/Zend/Validate/EmailAddressViaSmtp.php:126-128 | no contract of its own: the groups `preg_match` captures, or none; specified by MatchAddressSound, MatchAddressComplete and MatchAddressSplitsAtLastAt |
| Pattern.LastAt | src/Zend/Validate/EmailAddressViaSmtp.php:126-128 | finds an '@' with no '@' after it, and finds none exactly when there is no '@' |
| Pattern.DropFinalLineFeed | src/Zend/Validate/EmailAddressViaSmtp.php:126 | `$` may stop before one final line feed and nowhere else |
| Pattern.CanMatchCoversBody | src/Zend/Validate/EmailAddressViaSmtp.php:126 | every way the pattern can match covers the subject without its final line feed |
| Pattern.MatchAddressSound | src/Zend/Validate/EmailAddressViaSmtp.php:126-128 | the captured groups are a match of the pattern in the reference sense |
| Pattern.MatchAddressComplete | src/Zend/Validate/EmailAddressViaSmtp.php:126-128 | whenever the pattern can match, a match is reported, and it has the longest first group (greedy) |
| Pattern.CanMatchDeterminedByPrefix | src/Zend/Validate/EmailAddressViaSmtp.php:126-128 | two matches with equally long first groups are the same, so the greedy match is unique |
| Pattern.MatchAddressSplitsAtLastAt | src/Zend/Validate/EmailAddressViaSmtp.php:126-128 | the groups are what precedes and what follows the last '@', with no line feed in either |
| Pattern.LastAtOfJoin | src/Zend/Validate/EmailAddressViaSmtp.php:126-128 | in `y + "@" + h` with no '@' in `h`, the joining '@' is the last one |
| Pattern.MatchAddressOfJoin | src/Zend/Validate/EmailAddressViaSmtp.php:126-128 | matching `u + "@" + h` gives back `(u, h)` when neither has a line feed and `h` has no '@' |
| Pattern.MatchOfSuffixCapturesTail | src/Zend/Validate/EmailAddressViaSmtp.php:126-128 | matching any suffix of `u + "@" + h` that does not end in a line feed captures exactly `h` as the hostname |
| EmailAddressViaSmtp.MessageKey | src/Zend/Validate/EmailAddressViaSmtp.php:18-21 | every error key carries the validator's `emailAddressViaSmtp` prefix |
| EmailAddressViaSmtp.MessageKeysDistinct | src/Zend/Validate/EmailAddressViaSmtp.php:18-21 | the three recorded keys are pairwise distinct |
| EmailAddressViaSmtp.Recorded | src/Zend/Validate/EmailAddressViaSmtp.php:121-168 | no contract of its own: a failed verdict records its one key (lines 122, 131, 157), a throw (line 167) or reaching the SMTP loop records none; Validator.IsValid and Validator.CheckNetwork state their `errors` update through it |
| EmailAddressViaSmtp.IsFalsyHostname | src/Zend/Validate/EmailAddressViaSmtp.php:130 | no contract of its own: `!$hostname` on a captured string, true exactly for `""` and `"0"` |
| EmailAddressViaSmtp.WellFormed | src/Zend/Validate/EmailAddressViaSmtp.php:126-135 | no contract of its own: the pairs `isValid` hands to `_checkNetwork`: no line feed, no '@' in the hostname, a truthy hostname, and no strippable character at the outer ends; RoundTrip and AcceptedIsSplitAtLastAt show it is exactly that set |
| EmailAddressViaSmtp.ParseAddress | src/Zend/Validate/EmailAddressViaSmtp.php:121-133 | no contract of its own: the type test, `trim`, the match and the `!$hostname` test; specified by NonStringIsInvalid, AcceptedIsSplitAtLastAt, RoundTrip, UnmatchedIsInvalidFormat and FalsyHostnameIsInvalidFormat |
| EmailAddressViaSmtp.NetworkVerdict | src/Zend/Validate/EmailAddressViaSmtp.php:149-168 | no contract of its own: the verdict of `_checkNetwork` up to the SMTP loop; specified by SelectMailServers, MxUnavailableThrows, InvalidMxRecordExactly and ProbeUsesSelectedServers |
| EmailAddressViaSmtp.Validate | src/Zend/Validate/EmailAddressViaSmtp.php:119-136 | no contract of its own: the verdict of `isValid`; specified by NonStringIsInvalid, RejectedIgnoresNetwork, MxUnavailableThrows, InvalidMxRecordExactly and ProbeUsesSelectedServers |
| EmailAddressViaSmtp.SelectMailServers | src/Zend/Validate/EmailAddressViaSmtp.php:149-168 | no selection iff `dns_get_mx` is missing. No server iff MX is supported, the MX list is empty and `gethostbynamel` gives false or nothing. Otherwise a non-empty list that is the MX list unchanged, or the address list when the MX list is empty |
| EmailAddressViaSmtp.Validator.constructor | src/Zend/Validate/EmailAddressViaSmtp.php:103-106 | a fresh validator has recorded no error and fixes whether MX checking is supported |
| EmailAddressViaSmtp.Validator.IsValid | src/Zend/Validate/EmailAddressViaSmtp.php:119-136 | the statement-by-statement `isValid` gives the verdict `Validate` and appends exactly the recorded error key, if any, to `errors` |
| EmailAddressViaSmtp.Validator.CheckNetwork | src/Zend/Validate/EmailAddressViaSmtp.php:146-168 | the statement-by-statement server selection gives `NetworkVerdict` and records `INVALID_MX_RECORD` exactly when it fails with it |
| EmailAddressViaSmtp.NonStringIsInvalid | src/Zend/Validate/EmailAddressViaSmtp.php:121-124 | the verdict is `INVALID` exactly for non-strings, whatever the DNS and the system |
| EmailAddressViaSmtp.PaddingIgnored | src/Zend/Validate/EmailAddressViaSmtp.php:127 | strippable characters around the value do not change how it parses |
| EmailAddressViaSmtp.AcceptedIsSplitAtLastAt | src/Zend/Validate/EmailAddressViaSmtp.php:126-135 | an accepted value trims to `username + "@" + hostname`. The pair is well formed: no line feed, no '@' in the hostname, a truthy hostname, no strippable outer ends |
| EmailAddressViaSmtp.UnmatchedIsInvalidFormat | src/Zend/Validate/EmailAddressViaSmtp.php:126-133 | a trimmed value with no '@' or with a line feed is rejected with `INVALID_FORMAT` |
| EmailAddressViaSmtp.HostnameFollowsLastAt | src/Zend/Validate/EmailAddressViaSmtp.php:126-130 | for a value ending in a kept character, the matched hostname is everything after the value's last '@' |
| EmailAddressViaSmtp.FalsyHostnameCaptured | src/Zend/Validate/EmailAddressViaSmtp.php:126-130 | with `""` or `"0"` after the last '@', that is the captured hostname whenever the pattern matches |
| EmailAddressViaSmtp.HostnameDecides | src/Zend/Validate/EmailAddressViaSmtp.php:130-133 | an unmatched value, or one whose captured hostname is falsy, is rejected with `INVALID_FORMAT` |
| EmailAddressViaSmtp.FalsyHostnameIsInvalidFormat | src/Zend/Validate/EmailAddressViaSmtp.php:130-133 | `u + "@"` and `u + "@0"` are rejected with `INVALID_FORMAT` for every `u` |
| EmailAddressViaSmtp.RoundTrip | src/Zend/Validate/EmailAddressViaSmtp.php:126-135 | every well-formed pair joined by '@' parses back to itself. With AcceptedIsSplitAtLastAt, the well-formed pairs are exactly what `isValid` hands to `_checkNetwork` |
| EmailAddressViaSmtp.ExampleLastAt | src/Zend/Validate/EmailAddressViaSmtp.php:126-128 | `"a@b@c"` gives `("a@b", "c")` |
| EmailAddressViaSmtp.ExamplePlain | src/Zend/Validate/EmailAddressViaSmtp.php:126-135 | `"a@b"` gives `("a", "b")` |
| EmailAddressViaSmtp.ExamplePadding | src/Zend/Validate/EmailAddressViaSmtp.php:127 | `"  a@b \n"` gives `("a", "b")` |
| EmailAddressViaSmtp.ExampleEmptyUsername | src/Zend/Validate/EmailAddressViaSmtp.php:130-135 | `"@example.com"` is accepted with an empty username |
| EmailAddressViaSmtp.ExampleZeroHostname | src/Zend/Validate/EmailAddressViaSmtp.php:130-133 | `"a@0"` is rejected with `INVALID_FORMAT` |
| EmailAddressViaSmtp.ExampleLineFeed | src/Zend/Validate/EmailAddressViaSmtp.php:126-133 | `"a\nb@c"` is rejected with `INVALID_FORMAT` |
| EmailAddressViaSmtp.MxUnavailableThrows | src/Zend/Validate/EmailAddressViaSmtp.php:153-168 | without `dns_get_mx`, a well-formed address throws and nothing else does. `INVALID_MX_RECORD` and the SMTP stage never occur |
| EmailAddressViaSmtp.InvalidMxRecordExactly | src/Zend/Validate/EmailAddressViaSmtp.php:153-160 | `INVALID_MX_RECORD` iff the address parses, MX is supported, and there is neither an MX host nor an address record |
| EmailAddressViaSmtp.ProbeUsesSelectedServers | src/Zend/Validate/EmailAddressViaSmtp.php:149-170 | the SMTP stage is reached for the parsed address only, with a non-empty list: the MX hosts unchanged and in order when there are any, the address records otherwise |
| EmailAddressViaSmtp.RejectedIgnoresNetwork | src/Zend/Validate/EmailAddressViaSmtp.php:121-135 | a value that fails the address check gets the same verdict for every DNS answer and system. It is `INVALID_FORMAT` for strings and `INVALID` otherwise |

## Left out

- The SMTP loop (src/Zend/Validate/EmailAddressViaSmtp.php:170-206) is not modelled.
  It is unfinished network code through `Zend_Mail_Protocol_Smtp`, which is not part
  of this model. It never passes the server to the SMTP object, calls `helo`, `mail`
  and `rcpt` without arguments, uses the undefined constant `SMTP_CONNECTION_FAILED`
  and returns the undefined `$this->_result`. The model stops at `Probe`, where that
  loop would begin.
- `dns_get_mx` and `gethostbynamel` are foreign I/O. Their answers are the `Dns`
  input, and `validateMxSupported` (`function_exists`) is the `mxSupported` input.
- The keys `INVALID_HOSTNAME`, `DNS_TIMEOUT`, `UNKNOWN_USER`, `SMTP_TIMEOUT`,
  `SMTP_UNREACHABLE` and `MAILBOX_FULL` are declared but never recorded, so
  `ErrorCode` has no variant for them.
- The fields `$_timeout`, `$_senderAddr`, `$_checkMx`, `$_hostname` and `$_localPart` are left out. The modelled code reads only `$_timeout`, into a local `$timeout` that nothing reads.
- Message templates, message variables, `_error`'s message rendering and
  `setOptions` are left out. `Zend_Validate_Abstract` is not part of this model, so
  `_error` is modelled only as appending its key to `errors`.
- The include-path setup, the constructor's option handling and the commented-out
  code are left out.
- PHP notices (the undefined offsets read by `list(...)` when the pattern does not
  match) are not modelled. The values read are null, which the model does follow.
- PCRE resource limits are not modelled. When `preg_match` fails on its backtrack
  limit, `$matches` is empty. The value is then rejected with `INVALID_FORMAT` even
  if it has an '@'.
- PHP strings are modelled as Dafny strings with one character per byte. Floats and
  resources get no variants of their own in `Value`; like every other non-string,
  they are rejected with `INVALID`.
