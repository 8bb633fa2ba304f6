# SRUN portal login, modelled in Dafny

This project models the deterministic part of a client for the SRUN campus-network captive
portal. It covers three pieces:

- `utils/xencoding.py`: the packing codec (`sencode`/`lencode`) and the XXTEA-style block
  transform `get_xencode` that obfuscates the login info.
- `utils/base64_utils.py`: the Base64 encoder `get_base64`, which uses a permuted 64-character
  alphabet.
- `bitsrun_buct.py`: the `BitSRun` client. This covers the login username, the info JSON and its
  `{prefix}` wrapping, the HMAC-MD5 password field, the SHA-1 checksum, JSONP unwrapping,
  the `error == "ok"` decisions, the `ip: "..."` extraction of `get_ip`, and the sequencing of
  `run`.

Files and modules:

- `wrappers.dfy` (`Wrappers`): `Option`.
- `bytestrings.dfy` (`ByteStrings`): byte strings, whose every character code is below 256.
- `bits.dfy` (`Bits`): Python's `|` and `^` on non-negative integers, and their facts.
- `xencoding.dfy` (`XEncoding`): `sencode`, `lencode`, `get_xencode`.
  - Every method is proved equal to a specification function.
  - Lemmas cover lengths, the codec round trip and key handling.
  - An inverse of the mixing rounds shows that `get_xencode` loses nothing.
- `base64_utils.dfy` (`Base64Utils`): `_getbyte` and `get_base64`, with length, padding,
  alphabet and concatenation lemmas.
- `base64_injective.dfy` (`Base64Injective`): different byte strings never share an encoding.
- `pystr.dfy` (`PyStr`): the Python string operations the client relies on: `in`, `find`,
  `rfind`, slicing with negative and clamped bounds, and `str(int)`.
- `client.dfy` (`Client`): the `BitSRun` class, whose fields `ip` and `loginUsername` are
  updated by `GetIp` and `Login`, and the pure functions around it.

Words are unbounded naturals, as in Python:

- `|` and `^` are bitwise on naturals; `<<` is multiplication by a power of two, `>>` division,
  and `& 0xFFFFFFFF` is `% 2^32`.
- The masks really are `0xFFFFFFFF` and the round constant is the TEA delta `0x9E3779B9`
  (`XEncoding.MagicConstants`).
- No 32-bit wrap-around has to be assumed.
- Some members require a byte string, meaning every character code is below 256.
  - With larger codes, `sencode` can produce words of more than 32 bits.
  - `get_base64` can index past the end of `_ALPHA`, for example when the first character of a
    group has a code of 256 or more.
  - Other non-byte inputs still return a string: their fields overlap under `|` and the masked
    indices stay in range. Those inputs are excluded as well.

External inputs are parameters:

- Each HTTP request becomes a `Response`: its body (`None` when the request raised) and the
  millisecond timestamp the callback name is built from.
- The portal page becomes an optional string.
- HMAC-MD5, SHA-1, `json.dumps` string quoting and `json.loads` are uninterpreted functions of
  a `Primitives` value.
  - The digests are 16- and 20-byte sequences.
  - `QuotesFaithfully` states the one documented fact that is used: `json.dumps` produces ASCII
    and wraps a plain string in quotes unchanged.

## Model

| member | source | states |
|---|---|---|
| XEncoding.MagicConstants | utils/xencoding.py:107-132 | the OR-built constant is the TEA delta 0x9E3779B9, and the three OR-built masks are all 0xFFFFFFFF |
| XEncoding.Ordat | utils/xencoding.py:23-36 | a position past the end reads as 0; on a byte string every code is below 256 |
| XEncoding.SencodeSpec | utils/xencoding.py:49-57 | ⌈len(msg)/4⌉ words, plus a final word equal to len(msg) when `key` is set |
| XEncoding.Sencode | utils/xencoding.py:38-57 | the appending loop builds exactly the packed words of `SencodeSpec` |
| XEncoding.PackWordBytes | utils/xencoding.py:51-54 | word k is c[4k] + 2^8·c[4k+1] + 2^16·c[4k+2] + 2^24·c[4k+3], missing characters read as 0, and it is below 2^32 on byte strings |
| XEncoding.Lencode | utils/xencoding.py:59-82 | the loop produces `LencodeSpec`: four characters per word, cut to the length word when keyed, and no result when the length word is out of range |
| XEncoding.LencodeSpec | utils/xencoding.py:59-82 | unkeyed, all four characters of every word; keyed, a result iff the last word m satisfies 4(l-1)-3 ≤ m ≤ 4(l-1), and the result is then the first m unpacked characters, m of them |
| XEncoding.WordBytes | utils/xencoding.py:77-79 | a word below 2^32 is the sum of its four unpacked bytes, low byte first |
| XEncoding.BytesWord | utils/xencoding.py:77-79 | four bytes packed into a word unpack to the same four bytes |
| XEncoding.PackedUnpacked | utils/xencoding.py:38-82 | packing the characters of unpacked words below 2^32 gives back the words |
| XEncoding.UnpackedPacked | utils/xencoding.py:38-82 | unpacking the packed words of a byte string gives the string followed by NUL padding |
| XEncoding.SencodeLencode | utils/xencoding.py:38-82 | round trip: keyed `lencode` of keyed `sencode` returns the byte string, `""` included |
| XEncoding.SencodeLencodeUnkeyed | utils/xencoding.py:77-82 | unkeyed `lencode` of unkeyed `sencode` is the string NUL-padded to a multiple of 4 characters |
| XEncoding.KeyIndex | utils/xencoding.py:116-131 | the key index `(p & 3) ^ e` is always in 0..3 |
| XEncoding.RoundCount | utils/xencoding.py:111 | the round count 6 + 52 div (n+1) lies between 6 and 58 |
| XEncoding.PadKey | utils/xencoding.py:101-102 | a key of fewer than 4 words is extended with zero words to exactly 4, and a longer one is kept |
| XEncoding.MixAt | utils/xencoding.py:119-133 | one in-place update of `pwd[p]`: the array becomes `Step` of the old array and the returned `z` is the new `pwd[p]` |
| XEncoding.MixRound | utils/xencoding.py:115-133 | the inner loop and closing step turn the array into `Round` of the old array and leave `z` equal to the last word |
| XEncoding.MixRounds | utils/xencoding.py:104-134 | the outer loop turns the array into `Rounds` of the old array after `q` rounds |
| XEncoding.Step | utils/xencoding.py:119-133 | an update changes only `pwd[p]`, and the new word is below 2^32 |
| XEncoding.TermRing | utils/xencoding.py:105-133 | the term added at p reads the words at p-1 and p+1 modulo the block length: `z` for position 0 is `pwd[n]`, and `y` for position n is `pwd[0]` |
| XEncoding.TermFrame | utils/xencoding.py:120-123 | the term added at p does not depend on `pwd[p]` itself, only on the other words |
| XEncoding.StepsFrame | utils/xencoding.py:119-126 | after the inner loop reaches p, every word before p is below 2^32 and every later word is unchanged |
| XEncoding.Rounds | utils/xencoding.py:114-134 | after at least one round, or from words below 2^32, every word is below 2^32 |
| XEncoding.UnstepStep | utils/xencoding.py:120-125 | each update is undone by its inverse update |
| XEncoding.UnroundsRounds | utils/xencoding.py:114-134 | the rounds are undone by the inverse rounds, so the mixing loses nothing |
| XEncoding.XEncodeSpec | utils/xencoding.py:84-136 | `""` maps to `""`; any other message gives 4·(⌈len(msg)/4⌉+1) characters, all with codes below 256 |
| XEncoding.XEncode | utils/xencoding.py:84-136 | the in-place implementation computes `XEncodeSpec` for every message and key |
| XEncoding.XEncodeRoundTrip | utils/xencoding.py:84-136 | decoding the output with the same key gives back any byte-string message |
| XEncoding.XEncodeKeyPrefix | utils/xencoding.py:99-131 | only the first 16 characters of the key affect the output |
| XEncoding.XEncodeShortKey | utils/xencoding.py:101-102 | a key shorter than 16 characters acts as if NUL-padded to 16 |
| Base64Utils.AlphaDistinct | utils/base64_utils.py:6-7 | the alphabet has 64 pairwise distinct characters, none of them `=` |
| Base64Utils.AlphaIndexInverse | utils/base64_utils.py:7 | every alphabet symbol is found at its own index, and `=` is not found |
| Base64Utils.GetByte | utils/base64_utils.py:9-22 | 0 at or past the end, otherwise the character code, below 256 on byte strings |
| Base64Utils.Sextet | utils/base64_utils.py:45-48 | each 6-bit field of a 24-bit group indexes inside the alphabet |
| Base64Utils.GroupOr | utils/base64_utils.py:44 | the OR of `b0<<16`, `b1<<8` and `b2` is the 24-bit sum of the three bytes |
| Base64Utils.GroupsNext | utils/base64_utils.py:43-48 | each full group appends the symbols of its four 6-bit fields, high field first |
| Base64Utils.AppendTail | utils/base64_utils.py:50-63 | the tail branches append exactly `Tail(s)` |
| Base64Utils.TailOne | utils/base64_utils.py:52-57 | a one-byte tail gives two symbols and two `=` |
| Base64Utils.TailTwo | utils/base64_utils.py:58-63 | a two-byte tail gives three symbols and one `=` |
| Base64Utils.TailZeroPadded | utils/base64_utils.py:52-62 | a 1- or 2-byte tail is encoded as the zero-padded group, keeping 2 or 3 symbols and padding with `=` |
| Base64Utils.Tail | utils/base64_utils.py:50-63 | no characters when the length is a multiple of 3, otherwise four characters ending in `=` |
| Base64Utils.Base64Spec | utils/base64_utils.py:24-65 | four characters for every full group of three, and four more for a last group of one or two |
| Base64Utils.GetBase64 | utils/base64_utils.py:24-65 | the loop and tail branches compute `Base64Spec` |
| Base64Utils.Base64Length | utils/base64_utils.py:34-63 | the output has 4·⌈len(s)/3⌉ characters, and `""` encodes to `""` |
| Base64Utils.Base64Layout | utils/base64_utils.py:45-63 | there are 0, 2 or 1 trailing `=` for len(s) mod 3 = 0, 1, 2; `=` occurs nowhere else; every other character is from the alphabet |
| Base64Utils.Base64Concat | utils/base64_utils.py:43-48 | when len(a) is a multiple of 3, the encoding of a + b is the encoding of a followed by that of b |
| Base64Injective.SextetSum | utils/base64_utils.py:44-48 | the four 6-bit fields put back together give the 24-bit group |
| Base64Injective.SymbolsInjective | utils/base64_utils.py:45-62 | equal emitted symbols imply equal groups |
| Base64Injective.SameGroups | utils/base64_utils.py:43-48 | two strings of the same length with the same full-group symbols agree on the three bytes of each full group |
| Base64Injective.SameTail | utils/base64_utils.py:50-63 | two strings of the same length with the same padded tail agree on their last len mod 3 bytes |
| Base64Injective.Base64Injective | utils/base64_utils.py:24-65 | two byte strings with the same encoding are equal |
| PyStr.FindFrom | bitsrun_buct.py:232-233 | `str.find`: the leftmost occurrence at or after the start, or -1 exactly when there is none |
| PyStr.RFindChar | bitsrun_buct.py:233 | `str.rfind`: the last occurrence of the character, or -1 |
| PyStr.Decimal | bitsrun_buct.py:213-214 | `str(timestamp)` is a non-empty run of decimal digits |
| PyStr.DecimalValue | bitsrun_buct.py:213-214 | the digits of `str(n)` read back as n |
| PyStr.SliceInside | bitsrun_buct.py:233 | a slice between two in-range bounds takes exactly those characters |
| Client.GetMd5 | bitsrun_buct.py:132-143 | 32 lower-case hex digits that read back as the HMAC-MD5 of the password keyed by the token |
| Client.GetSha1 | bitsrun_buct.py:145-158 | 40 lower-case hex digits that read back as the SHA-1 of the value, then exactly one newline |
| Client.UnhexHex | bitsrun_buct.py:143-157 | hex rendering loses nothing: it reads back to the digest |
| Client.LoginUsername | bitsrun_buct.py:278-280 | the username, plus `@` and the user type when the type is non-empty |
| Client.InfoJson | bitsrun_buct.py:160-174 | a JSON object text: it starts with `{"username":` and ends with `}` |
| Client.InfoJsonLayout | bitsrun_buct.py:160-174 | with plain values, the info JSON has keys username, password, ip, acid, enc_ver in order, each value in plain quotes, no whitespace |
| Client.InfoJsonBytes | bitsrun_buct.py:160-174 | the info JSON is a byte string, so `get_xencode` and `get_base64` apply to it |
| Client.InfoField | bitsrun_buct.py:299-309 | the `{prefix}` marker comes first, and nothing follows it exactly when the info is empty |
| Client.InfoFieldDetermines | bitsrun_buct.py:299-309 | under one token and prefix, equal info fields come from equal info JSON |
| Client.ChkPreimageSeven | bitsrun_buct.py:190-196 | the seven `+=` steps build the pre-image of the seven fields, each after a copy of the token |
| Client.ChkPreimageConcat | bitsrun_buct.py:190-196 | the pre-image of two field lists in a row is the concatenation of their pre-images |
| Client.ChkPreimageLength | bitsrun_buct.py:190-196 | each field contributes one token plus its own length |
| Client.Callback | bitsrun_buct.py:213-214 | the callback name `jQuery_<timestamp>` contains no parenthesis |
| Client.Unwrap | bitsrun_buct.py:231-233 | a result iff the body contains the callback name, and never longer than the body |
| Client.UnwrapWithoutParentheses | bitsrun_buct.py:232 | with no parenthesis in the body, `find` and `rfind` both give -1, and the slice keeps all but the last character |
| Client.Parse | bitsrun_buct.py:211-243 | no reply when the request failed or when the body lacks the callback name |
| Client.UnwrapEnvelope | bitsrun_buct.py:231-233 | `pre + callback + "(" + j + ")" + post` unwraps to j, parentheses inside j included, when no `(` precedes the callback's `(` and no `)` follows |
| Client.ParseEnvelope | bitsrun_buct.py:211-240 | a reply `jQuery_T(j)` to the request made at T is parsed from j |
| Client.ParseNeedsCallback | bitsrun_buct.py:231-240 | a body not containing the callback name yields no reply |
| Client.IsOk | bitsrun_buct.py:255-256 | false for a failed request, for a reply without `error`, and for an `error` other than the string `"ok"` |
| Client.OkEnvelope | bitsrun_buct.py:255-268 | a wrapped reply is accepted iff its JSON parses to an object whose `error` is the string `"ok"` |
| Client.SkipSpaces | bitsrun_buct.py:118 | `\s*` stops at the first non-space, and everything skipped is Python white space |
| Client.QuoteOrNewline | bitsrun_buct.py:118 | the lazy `.*?"` scan stops at the first quote or newline |
| Client.MatchIpAt | bitsrun_buct.py:118 | a capture contains neither `"` nor a newline |
| Client.SkipSpacesTo | bitsrun_buct.py:118 | white space ended by another character is skipped exactly to that character |
| Client.QuoteOrNewlineTo | bitsrun_buct.py:118 | newline-free text before a quote stops the scan at the first quote |
| Client.MatchIpSound | bitsrun_buct.py:118 | a match found at i is a match of `ip\s*:\s*"(.*?)"` at i, with no condition on the text before i |
| Client.MatchIpComplete | bitsrun_buct.py:118 | wherever the pattern matches, a match is found, and its capture is a prefix of every capture the pattern allows there |
| Client.IpOf | bitsrun_buct.py:117-126 | a result iff the pattern matches somewhere in the page; the result is the capture at the leftmost match, and has no `"` and no newline |
| Client.FirstMatch | bitsrun_buct.py:118 | `re.search` returns the leftmost position where the pattern matches, or none exactly when it matches nowhere |
| Client.LoginRequestFor | bitsrun_buct.py:278-335 | action `login`; the configured fields and the address unchanged; the login username; a 37-character `{MD5}` password; a 41-character checksum ending in a newline; the info field after the `{prefix}` marker |
| Client.LoginOutcome | bitsrun_buct.py:284-352 | a request is sent iff the challenge reply carries a string challenge; a non-string challenge raises and no challenge returns false; once sent, the outcome is the `error == "ok"` test of the login reply |
| Client.LoginPasswordField | bitsrun_buct.py:314-327 | the password sent is `{MD5}` followed by 32 hex digits of the HMAC-MD5 keyed by the token |
| Client.LoginChecksumField | bitsrun_buct.py:176-197 | the checksum is 40 hex digits and a newline: the SHA-1 of the token-prefixed username, bare MD5 digest (no `{MD5}`), ac_id, ip, n, type and info, as sent in the same request |
| Client.LoginInfoField | bitsrun_buct.py:297-309 | the info field sent identifies the info JSON it was built from |
| Client.BitSRun.constructor | bitsrun_buct.py:44-62 | a new client has an empty `ip` and an empty `loginUsername` |
| Client.BitSRun.GetIp | bitsrun_buct.py:102-130 | true iff the page has a match; `ip` becomes the capture of the leftmost match, and is unchanged on failure |
| Client.BitSRun.CheckOnline | bitsrun_buct.py:245-268 | online iff the parsed reply has an `error` member equal to `"ok"` |
| Client.BitSRun.GetChksum | bitsrun_buct.py:176-197 | the accumulated string hashed is the pre-image of the seven fields in order |
| Client.BitSRun.Login | bitsrun_buct.py:270-352 | rebuilds `loginUsername` from the configured username on every call; sends nothing and returns false without a challenge; raises on a non-string challenge; otherwise sends the request of `LoginRequestFor` and returns whether the reply says `"ok"` |
| Client.BitSRun.Run | bitsrun_buct.py:354-374 | false without an address; true without logging in when already online; otherwise the login's outcome, followed by a second status check only after a successful login; any request sent carries the address just found |

## Left out

- `force` in `utils/xencoding.py` is not part of this model: nothing calls it.
- `guard` (an endless loop with sleeps and interrupt handling), `run.py`, logging, and the
  `requests` session are left out. HTTP bodies and timestamps are parameters instead.
- `_load_config` and its fallback values are left out; the settings arrive as a `Config` value.
- HMAC-MD5, SHA-1, `json.dumps` escaping and `json.loads` parsing are uninterpreted functions.
  - `json.loads` is taken to return an object or nothing. A reply whose top level is an
    array, string or number, and that would make the membership tests behave differently, is
    not modelled.
  - Any JSON value other than a string is one opaque value, since the client only compares
    strings.
- Characters with codes of 256 or more:
  - `GetBase64` and `Base64Spec` require a byte string. With larger codes, `_ALPHA` indexing
    can go out of range. That happens, for example, when the first character of a group has a
    code of 256 or more.
  - Other non-byte inputs, such as `"a\u012c"`, make Python return a string whose fields
    overlap under `|`. The model does not describe that output. The only caller passes
    `get_xencode` output, whose codes are all below 256.
  - `XEncodeRoundTrip`, `SencodeLencode` and `Base64Injective` also require byte strings.
  - `XEncode` itself has no such requirement.
- XEncoding.LencodeSpec: keyed `lencode` of an empty list would raise `IndexError` in Python. It
  is required to be non-empty here; `get_xencode` only calls the unkeyed form.
- XEncoding.XEncodeRoundTrip: it requires a message shorter than 2^32 characters, because the
  length word must fit in 32 bits to survive a round.
- Client.LoginInfoField: it requires each info JSON to be shorter than 2^32 characters, for the
  same reason.
- `lencode` overwrites its argument list in place; the model returns the characters as a new
  value.
- `q` is computed with float division and `math.floor`; it is modelled as integer division,
  which gives the same value for every packed length.
- There is no Base64 decoder. That Base64 loses nothing is stated as injectivity
  (`Base64Injective`).
- Client.BitSRun.Login: the decision on whether the challenge is a string is modelled as
  "raises" for every non-string token. The Python code may get further with some such values
  (an array of one-character strings survives `get_xencode`), but it always raises before the
  login request at `token.encode()`.
- Client.BitSRun.Run: a `Raised` outcome stands for the exception propagating out of `run`.
- A challenge holding a lone surrogate: `json.loads` accepts `"\ud800"`, and the `.encode()`
  calls of `_get_md5` and `_get_sha1` then raise `UnicodeEncodeError`. A Dafny `char` cannot
  hold a surrogate, so this exception path is not modelled.
- Client.BitSRun.CheckOnline: the extra reading of `online_ip`/`client_ip` only feeds log
  messages and is left out.
