# MCQuery client, modelled in Dafny

A model of `MCQuery`, the client side of the Minecraft query protocol (a
GameSpy4-derived UDP protocol), together with proofs about it. The client
frames type-9 handshake requests and type-0 stat requests. It turns the
handshake reply into a 4-byte challenge token. It decodes basic-stat and
full-stat replies into dictionaries whose keys follow fixed print orders.
When a read fails it retries: the handshake calls itself, and each stat call
re-runs the handshake and then calls itself.

The project has two layers.

- **Wire codecs, as pure functions.**
  - `Packet`: request framing, the response header and the challenge token.
  - `BasicStat` and `FullStat`: the two reply decoders.
  - Helper modules model the Python operations the decoders rely on:
    - `Bytes`: `struct` packing, and ISO-8859-1 decoding and encoding.
    - `Decimal`: `int()` and `str()` on integers.
    - `PyStr`: slicing, `split` with and without `maxsplit`, and `join`.
    - `Record`: the reordering dict comprehension.
  - Each decoder is paired with the encoder a conforming server would use. A round-trip lemma shows the client reads every field back.
- **The session, in `Session`.**
  - `HandshakeRun`, `StatExchange` and `StatRun` are the reference semantics. They are functions over a value `Conn`, which holds `id`, `retries`, `max_retries`, `challenge`, the receive outcomes still to come and the datagrams sent so far.
  - The classes `MCQuery` and `Socket` hold the same state in mutable fields. Their recursive methods are proved to compute exactly what those functions say.
  - Lemmas state the retry protocol:
    - every attempt uses the next id;
    - a reply resets `retries`;
    - the handshake gives up exactly when `retries` reaches `max_retries`;
    - a stat call re-handshakes and resends with the new challenge;
    - a handshake error escapes from the stat call.

Bytes are integers in 0..255, and text is `string`. Latin-1 decoding maps
each byte to the character with the same code, as the client's
`decode_format = "iso-8859-1"` does.

## Model

| member | source | states |
|---|---|---|
| Bytes.PackInt32BE | mcquery.py:93 | `struct.pack('>l', n)` gives exactly 4 bytes |
| Bytes.UnpackInt32BE | mcquery.py:106 | `struct.unpack('>l', b)` of 4 bytes gives a value in the int32 range, negative exactly when the top bit of the first byte is set |
| Bytes.UnpackPackInt32 | mcquery.py:93 | unpacking a packed int32 gives it back |
| Bytes.PackUnpackInt32 | mcquery.py:105-107 | repacking an unpacked 4-byte field gives back the same bytes |
| Bytes.UnpackInt16LE | mcquery.py:150 | `struct.unpack('<h', b)` of 2 bytes is an int16, negative exactly when the high bit of the second byte is set |
| Bytes.UnpackPackInt16 | mcquery.py:150 | the port bytes a server packs little-endian unpack to the same port |
| Bytes.Latin1Decode | mcquery.py:79 | ISO-8859-1 decoding keeps the length and maps every byte to the character with that code |
| Bytes.Latin1Encode | mcquery.py:79 | ISO-8859-1 encoding of Latin-1 text keeps the length and decodes back to the text |
| Bytes.EncodeDecode | mcquery.py:79 | encoding decoded bytes gives back the bytes |
| Bytes.DecodeCount | mcquery.py:145 | decoding keeps the number of NUL bytes, so counting NULs in text counts them in the payload |
| Decimal.ParseInt | mcquery.py:123 | `int()` succeeds exactly on an optional `-` followed by at least one decimal digit |
| Decimal.ParseShow | mcquery.py:156-157 | `int(str(n)) == n` for every integer |
| PyStr.Drop | mcquery.py:185 | `s[n:]` has length `max(0, len(s) - n)` and is the elements from `n` on |
| PyStr.DropLast | mcquery.py:153 | `s[:-n]` is a prefix of `s`, `n` elements shorter, empty when `s` is shorter than `n` |
| PyStr.Find | mcquery.py:188 | the result is the leftmost occurrence of the separator, and none means the separator does not occur |
| PyStr.SplitN | mcquery.py:145 | `s.split(sep, maxsplit)` gives at most `maxsplit + 1` pieces that join back to `s`; every cut is at the leftmost next match, and the last piece has no match unless the limit stopped the split |
| PyStr.Split | mcquery.py:194 | `s.split(sep)` gives pieces that join back to `s` and contain no `sep`; each cut is at the leftmost match after the previous one, which fixes the pieces even for a separator such as the player marker whose start and end overlap |
| PyStr.SplitJoin | mcquery.py:202 | splitting the join of pieces that do not interfere with the separator gives back the pieces |
| PyStr.SplitNCount | mcquery.py:140-145 | with a one-character separator, `split` makes one piece more than the separator's occurrences, up to the limit |
| PyStr.SplitNCons | mcquery.py:216 | splitting `a + sep + rest` cuts after `a` when nothing in `a` starts a match |
| Record.Reorder | mcquery.py:171 | `{k: src[k] for k in order if k in src}`: each entry is the source dict's value for its key, and the keys are `order` when `src` holds them all |
| Packet.EncodeRequest | mcquery.py:93 | a request exists exactly when the id fits in int32; it is `FE FD`, the type, the big-endian id that unpacks back to `id`, then the payload, 7 bytes longer than the payload |
| Packet.ParseHeader | mcquery.py:105-107 | parsing succeeds exactly for 5 bytes or more; the id is an int32, and type, packed id and rest rebuild the buffer |
| Packet.ParseHeaderOf | mcquery.py:105-107 | the header of `[type] + be32(id) + payload` reads back as `(type, id, payload)` |
| Packet.ChallengeToken | mcquery.py:123 | the token exists exactly when the payload minus its last byte parses as an int32; it is 4 bytes that unpack to that integer |
| Packet.ChallengeTokenOf | mcquery.py:123 | a reply of `str(n)` and a NUL gives the token `be32(n)` |
| BasicStat.BasicRecord | mcquery.py:160-171 | the dict has keys in `BASICSTAT_PRINT_ORDER`, each bound to its field |
| BasicStat.ParseBasic | mcquery.py:140-157 | the field-count error happens exactly when the payload has fewer than 5 NULs. With the six split fields, the short-port error happens exactly when the remainder has fewer than 2 bytes. The `numplayers` error happens exactly when field 3 is not an integer, and the `maxplayers` error exactly when field 3 is one and field 4 is not. Decoding succeeds exactly when none of these happens. A success carries fields 0-2 as text and `int()` of fields 3 and 4; the port is an int16, the host name is shorter than the payload, and the text fields hold no NUL |
| BasicStat.DecodeBasic | mcquery.py:140-173 | a decoded dict is `basic_info_dict` of the parsed status, with keys in `BASICSTAT_PRINT_ORDER`; decoding fails exactly when parsing fails, and with the parse error |
| BasicStat.BasicReplyFields | mcquery.py:145 | a conforming reply splits at its first five NULs into the five text fields and the port-and-host tail |
| BasicStat.PortAndHost | mcquery.py:150-153 | the tail's first two bytes unpack to the port, and the rest minus the last byte is the host name |
| BasicStat.BasicRoundTrip | mcquery.py:140-157 | decoding the reply a server builds from any status whose text is Latin-1 and NUL-free gives back that status |
| FullStat.FullInfo | mcquery.py:224-237 | `full_info_dict` holds every key of `FULLSTAT_PRINT_ORDER` |
| FullStat.FullRecord | mcquery.py:224-240 | the result's keys are exactly `FULLSTAT_PRINT_ORDER`, each bound to its `full_info_dict` value |
| FullStat.PairUp | mcquery.py:195 | `dict(zip(t[::2], t[1::2]))` always has the first token as a key when a value follows it; its keys and values in full are stated by `PairUpKeys` and `PairUpLast` |
| FullStat.MotdSection | mcquery.py:191 | writing `b'motd'` over the first 8 bytes of any section, then decoding, is the decoded section with its first 8 characters replaced by `motd` (the whole text becomes `motd` when the section has at most 8 bytes) |
| FullStat.KeyValues | mcquery.py:191-195 | the key/value dict is the NUL-split pairing of the section's text with its first 8 characters replaced by `motd`; a section of at most 8 bytes gives an empty dict |
| FullStat.PairUpKeys | mcquery.py:195 | the keys of `dict(zip(t[::2], t[1::2]))` are exactly the even-position tokens that have a value after them |
| FullStat.PairUpLast | mcquery.py:195 | a repeated key keeps the value after its last even position |
| FullStat.SplitPlugins | mcquery.py:216-221 | the server mod and the plugin list join back to the raw field; the mod has no `": "` and no plugin has `"; "` |
| FullStat.PluginsRoundTrip | mcquery.py:216-221 | splitting a mod and plugins joined as a server does gives them back, with `[]` when there are no plugins |
| FullStat.TextField | mcquery.py:225-236 | a lookup succeeds exactly when the key is present, else it fails with a missing-key error naming the key |
| FullStat.IntField | mcquery.py:207-208 | the conversion succeeds exactly when the key is present and its value is a decimal integer, and it gives that integer |
| FullStat.PlayerList | mcquery.py:198-204 | no player name contains NUL |
| FullStat.ReadFields | mcquery.py:207-236 | decoding succeeds exactly when all ten looked-up keys are present and `numplayers`, `maxplayers` and `hostport` hold integers, and otherwise fails with a missing-key or not-an-integer error. A success carries each text field as looked up, `int()` of the three integer fields, a mod and plugin list that join back to the `plugins` value (the mod without `": "`), and the player list |
| FullStat.ParseFull | mcquery.py:185-221 | after the 11-byte padding, the marker-count error happens exactly when the split around the marker does not give two parts; with two parts, the result is that of reading the fields from the key/value section (with `motd` written over its first 8 bytes) and the player section. A success means the payload contains the marker; the mod has no `": "` and player names no NUL |
| FullStat.MarkerOnce | mcquery.py:188 | a payload that decodes is cut at one marker after the padding: no marker starts inside the part before the cut or inside the part after it (a marker overlapping the cut is not excluded) |
| FullStat.MissingMarker | mcquery.py:188 | with no marker after the padding, the two-way unpack fails |
| FullStat.EmptySections | mcquery.py:185-207 | a payload of 11 padding bytes and the marker alone splits into two empty sections and fails on the first lookup, `data['numplayers']` |
| FullStat.DecodeFull | mcquery.py:185-242 | a decoded dict is `full_info_dict` of the parsed status, with keys in `FULLSTAT_PRINT_ORDER`; decoding fails exactly when parsing fails, and with the parse error |
| FullStat.PlayerNames | mcquery.py:198-204 | a player section of NUL-terminated names and a final NUL gives back the names, and `[]` for no names |
| FullStat.FullRoundTrip | mcquery.py:185-221 | after any 11 padding bytes, decoding a conforming reply gives back its status |
| Session.Truncate | mcquery.py:104 | `recvfrom(2048)` keeps a prefix of the datagram that is exactly `min(len, 2048)` bytes long |
| Session.ReadReply | mcquery.py:103-107 | a timeout fails; a datagram fails exactly when it has fewer than 5 bytes, and otherwise its header rebuilds the received bytes |
| Session.NextRead | mcquery.py:112-114 | the read ends the script only when it is empty, fails exactly when `read_packet` raises, and otherwise gives the parsed header |
| Session.HandshakeRequest | mcquery.py:111 | a handshake request is 7 framed bytes of type 9 carrying the id |
| Session.HandshakeRun | mcquery.py:109-123 | a handshake leaves `max_retries` unchanged, reads only from the front of the script and only adds framed requests to the log |
| Session.HandshakeOutcome | mcquery.py:109-123 | the id always moves forward; success leaves `retries` at 0 and a 4-byte challenge; an error keeps the old challenge, and giving up leaves `retries == max_retries` |
| Session.HandshakeRetry | mcquery.py:114-120 | a failed read below the limit continues as a new attempt from the next id, one more retry and one outcome consumed |
| Session.HandshakeIdOverflow | mcquery.py:92-101 | when the next id no longer fits in int32, packing the request raises, nothing is sent, and the handshake fails with the id already incremented |
| Session.HandshakeAtLimit | mcquery.py:114-119 | a failed read that brings `retries` to `max_retries` raises at once, after sending one request and consuming one outcome |
| Session.HandshakeBadToken | mcquery.py:112-123 | a reply whose payload does not convert to a token raises after `retries` was reset to 0, keeping the old challenge |
| Session.HandshakeAnswered | mcquery.py:122-123 | a reply with a valid token ends the handshake at once with `retries` 0 and that token as the challenge |
| Session.HandshakeAfterFailures | mcquery.py:109-122 | `k` failed reads below the limit and then a reply give success, the id moved by `k + 1`, `retries` 0 and the new challenge |
| Session.HandshakeAfterFailuresSent | mcquery.py:110-111 | those `k + 1` attempts send handshake requests with consecutive ids |
| Session.HandshakeGivesUp | mcquery.py:114-119 | failed reads on every remaining attempt make the handshake raise after `max_retries - retries` attempts, with `retries == max_retries` and the challenge unchanged |
| Session.NoLimitPastMax | mcquery.py:117 | with `retries >= max_retries` the `==` test never fires, so the handshake never raises the retry-limit error |
| Session.LimitIsFinal | mcquery.py:115-119 | after a handshake gives up, the next one on the same session cannot give up for the retry limit |
| Session.StatPayload | mcquery.py:126 | the basic payload is the challenge; the full payload is the challenge and four zero bytes |
| Session.DecodeStat | mcquery.py:133-242 | for both calls (the basic decoder at lines 133-173, the full decoder at 184-242), decoding succeeds exactly when the matching parser does and gives that parser's status as a dict in print order; otherwise it raises a decode error carrying the parse error |
| Session.StatExchange | mcquery.py:125-182 | for both calls (`basic_stat` at lines 125-131, `full_stat` at 175-182), a stat exchange never lowers the id, keeps `max_retries`, moves forward in the script and the log, and raises no decode error |
| Session.StatRun | mcquery.py:125-182 | for both calls (`basic_stat` at lines 125-131, `full_stat` at 175-182), a stat call ends in the exchange's state; when the exchange read a reply, the result is the decoding of that reply's payload, and otherwise it is the exchange's error |
| Session.StatFirstTry | mcquery.py:126-128 | a stat call answered at once sends one request with the current id and challenge, changes no session field and returns the reply payload |
| Session.StatRetry | mcquery.py:129-131 | after a failed read and a successful handshake, the stat call starts over from the handshake's state |
| Session.StatRehandshake | mcquery.py:129-130 | the handshake after a failed stat read, answered at once, moves the id by one and installs the new token |
| Session.BasicStatAnswered | mcquery.py:125-173 | a `basic_stat` whose first read is a conforming server's reply sends one request and returns that server's status in `BASICSTAT_PRINT_ORDER` |
| Session.FullStatAnswered | mcquery.py:175-242 | a `full_stat` whose first read is a conforming server's reply, after any 11 padding bytes, sends one request and returns that server's status in `FULLSTAT_PRINT_ORDER` |
| Session.StatRecovers | mcquery.py:126-131 | a failed read, then a handshake reply, then a stat reply: three requests (stat, handshake, stat with the new id and token) and the third outcome's payload |
| Session.StatHandshakeFails | mcquery.py:129-131 | a failed read followed by a failed handshake makes the stat call raise the handshake's error |
| Session.Socket.SendTo | mcquery.py:95 | `sendto` appends the datagram to the log and leaves the script alone |
| Session.Socket.RecvFrom | mcquery.py:104 | `recvfrom` takes the next outcome of the script, if any |
| Session.MCQuery.Open | mcquery.py:77-90 | a new session starts at id 0, `retries` 0, an empty challenge and `max_retries` 3 unless given, and runs one handshake as `HandshakeRun` says; when that handshake succeeds the session holds a 4-byte challenge and `retries` 0 |
| Session.HandshakeKeepsToken | mcquery.py:109-123 | a session holding a 4-byte challenge still holds one after any handshake, successful or not |
| Session.StatKeepsToken | mcquery.py:125-131 | a session holding a 4-byte challenge still holds one after any stat call, so every stat request it sends carries a 4-byte token |
| Session.MCQuery.WritePacket | mcquery.py:92-95 | the framed request is sent exactly when the id fits in int32, and nothing else changes |
| Session.MCQuery.ReadPacket | mcquery.py:103-107 | the read is `NextRead` of the script, consumes one outcome and sends nothing |
| Session.MCQuery.Handshake | mcquery.py:109-123 | the method's result and new state are exactly `HandshakeRun` of the old state |
| Session.MCQuery.Stat | mcquery.py:125-131 | the method's result and new state are exactly `StatRun` of the old state |
| Session.MCQuery.BasicStat | mcquery.py:125-173 | `basic_stat` is `StatRun` for the basic request |
| Session.MCQuery.FullStat | mcquery.py:175-242 | `full_stat` is `StatRun` for the full request |

## Left out

- Socket creation, the timeout setting and address handling (mcquery.py:81-89) are not modelled. The transport is a finite script of receive outcomes: a timeout or a datagram. `sendto` appends to a log.
- The `sendto` failures (mcquery.py:96-101) are not modelled, because sending to the script cannot fail. A `gaierror` is printed and ends the program; any other exception is printed and re-raised.
- Session.HandshakeRun: each retry is a nested call (mcquery.py:120), and the model's recursion has no depth bound. CPython stops the nesting at its recursion limit (about 1000 frames by default) with `RecursionError`, so a session that sees about a thousand failed reads in a row ends differently from the model.
- Session.StatExchange: the stat calls also retry by nested calls (mcquery.py:131, 182), and the same recursion limit is not modelled.
- Session.MCQuery.Open: the client's constructor raises when its first handshake fails, so no session exists without a challenge. `Open` returns the session together with the error, and a caller has to discard it, because a stat call on it would send an empty challenge.
- The retry message (mcquery.py:116) is left out because it changes no state. The command-line parsing and printing (mcquery.py:245-276) and the interactive polling loop of `demo.py` are also left out.
- Session.ScriptEnded: a read with no outcome left in the script raises `ScriptEnded`. This is a modelling device that bounds the recursion. The client itself would block until a timeout.
- Session.Truncate: on platforms where `recvfrom` raises for a datagram longer than the buffer, the client would retry. The model truncates the datagram, as POSIX systems do.
- Decimal.ParseInt: `int()` also accepts surrounding whitespace, a leading `+`, `_` between digits and non-ASCII digits. The model accepts only an optional `-` followed by ASCII digits.
- The `isinstance(..., str)` / `isinstance(..., bytes)` branches (mcquery.py:148-149, 212-215) behave the same under Latin-1. Only the decoded-text path is modelled.
- PyStr.DropLast: `s[:-0]` (empty in Python) is excluded by its precondition. The client only drops 1 or 2 elements.
- The response's type byte and echoed id are parsed but never checked, as in the client.

## Behaviour kept as written

These are points where the code differs from what a reader of the protocol might expect. The model follows the code in each case.

- After a handshake gives up, `retries` stays at `max_retries`. The `==` test at mcquery.py:117 then never fires again, so a later handshake on the same session never raises the retry-limit error and keeps retrying while reads fail, until the interpreter's recursion limit stops it (`Session.NoLimitPastMax`, `Session.LimitIsFinal`).
- The full-stat decoder replaces the first 8 bytes of the key/value section with `motd`. Those 8 bytes are the key `hostname`; the replacement is not limited to 4 bytes.
- A player section ending in three NULs, such as `Alice\0Bob\0\0\0`, loses only two of them. The names then include a trailing empty name: `["Alice", "Bob", ""]`.
- The basic-stat port is read from the two bytes right after the fifth NUL, little-endian. In `...20\0\0\x63\x19\x01localhost\0` those bytes are `00 63`, which gives port `0x6300`. The host name is then `\x19\x01localhost`.
