# A verified model of a small BitTorrent client's bencode and wire code

This project models the byte-level core of a small C BitTorrent client in
Dafny:

- the bencode decoder of `src/decode.c` (strings, integers, lists and
  dictionaries);
- the encoder of `src/bencode.c`, which turns a decoded value back into
  bencode;
- the 68-byte peer handshake built by `construct_handshake_packet` in
  `src/peer.c`;
- the byte work of `src/tracker.c`:
  - turning the tracker's compact "peers" string into a peer list;
  - the curl write callback that collects the response;
  - `peers_list_to_string`;
- the older decoder in the root `bencode.c`, which handles strings,
  integers and lists only.

The input buffer is a `seq<byte>`. Reading at index `|s|` yields NUL
(`CText.At`), which is C's terminator. Reading further also yields NUL in
the model, while in C it is out of bounds. Both decoders can make such
reads. For example, on `l1:` the newer `find_value_length`
(`src/decode.c:25-29`) reads index 4 of a 4-byte buffer.

`strchr`, `atoi`, `atoll`, `strndup`, `strncpy` and `strlen` are each
written out as a function in `CText` or `Legacy`, and so are the encoder's
`"%zu"` and `"%" PRId64` formats (`CText.Decimal`, `CText.SignedDecimal`).
The peer array of `get_peers` (`src/tracker.c:61`) becomes a Dafny array,
filled by `Tracker.ParsePeerRecords`. The curl response buffer
(`src/tracker.c:21,85-92`) becomes the class `Tracker.Response`.
`construct_handshake_packet` fills the caller's array. The other buffers
that the C code grows or fills in place are modelled as sequences that the
loops and functions extend.

## How the decoder is modelled

`Decode.Parse` is the reference reading. It returns the value together with
the position just past it.

The C decoder never returns that position. Its list and dictionary loops
call `find_value_length` to step past each element. That function is
modelled twice:

- `Decode.ValueLength` is a function;
- `Decode.FindValueLength` is its loop form.

`Decode.ParseConsumesValueLength` proves that it measures exactly what the
reference reading consumes. The C-shaped methods `DecodeList`, `DecodeDict`
and `DecodeBencode` are proved to return what `Parse` reads.

The encoder is `Encoder.Encode`. `RoundTrip` proves two round trips:

- decoding an encoded value gives it back and consumes the whole encoding;
- encoding a canonical decoded buffer gives the buffer back.

The legacy decoder has its own reading, `Legacy.LParse`.
`Legacy.LegacyAgreement` relates it to the newer decoder. The newer decoder reads a value without dictionaries exactly
when the legacy one reads a value that ends inside the input, and then the two
values agree string by string.

Bencoding is defined in BEP 3, the BitTorrent protocol specification. In
a few points the code does not follow it, and the model follows the code:

- **Dictionary keys.** BEP 3 requires keys to be strings in sorted order.
  The decoder keeps the stored order and any duplicates, and the encoder
  emits the entries in that order.
- **Strings.** In BEP 3 a string is a base-ten length, a colon and that
  many bytes, so it may hold any byte. The code:
  - finds the colon with `strchr`, which stops at the first NUL;
  - reads the length with `atoi`;
  - copies dictionary keys with `strndup`, which truncates them at a NUL;
  - encodes strings using `strlen`, so a string is cut at its first NUL.
- **Integers.** BEP 3 rejects "i-0e" and leading zeros. The code hands the
  bytes between 'i' and 'e' to `atoll`, which accepts both, along with
  leading spaces and a '+'.
- **Errors.** On malformed input the code prints a message and exits. The
  model returns an `Error` value for each such exit.
- **The `length` field.** `decode.c:51` and `tracker.c:54` use a `length`
  field that `src/decode.h` does not declare. The model gives a decoded
  string its byte count.

## Model

| member | source | states |
|---|---|---|
| CText.IsDigitExactly | src/decode.c:4-6 | is_digit accepts a byte exactly when it is the text of one decimal digit |
| CText.CAtollSignedDecimal | src/bencode.c:21-35 | atoll reads back every integer the encoder prints with PRId64, negative ones included |
| Decode.FindValueLength | src/decode.c:9-34 | the loop computes find_value_length: to the first 'e' for an integer; prefix + colon + length for a string; the element lengths plus the two delimiters for a list or dictionary; 0 when nothing can be measured |
| Decode.ParseConsumesValueLength | src/decode.c:9-34 | whenever a value decodes, find_value_length is exactly the number of bytes its decoding consumes |
| Decode.DecodeString | src/decode.c:37-61 | succeeds exactly when the first byte is a digit, a ':' follows and the atoi length fits in the buffer; the string then has the atoi length |
| Decode.DecodeStringOutcome | src/decode.c:37-61 | the string is the atoi-length bytes after the first colon; a non-digit start gives InvalidStringFormat, no colon MissingColon, and a length past the buffer StringOverrun |
| Decode.DecodeInteger | src/decode.c:64-83 | succeeds exactly when an 'e' follows; the value is atoll of the bytes between the 'i' and that 'e' |
| Decode.DecodeList | src/decode.c:86-114 | at an 'l' the loop decodes exactly the reference reading of the list, or fails as it does; any other first byte gives InvalidListFormat |
| Decode.DecodeDictEntry | src/decode.c:125-151 | one pass of the dictionary loop yields exactly the entry the reference reading takes there: a string key cut at its first NUL (strndup) and its value, plus the bytes both take; when that reading fails, the pass fails with the same error |
| Decode.DecodeDict | src/decode.c:117-158 | at a 'd' the loop decodes exactly the reference reading of the dictionary, entries in stored order; any other first byte gives InvalidDictFormat |
| Decode.DecodeBencode | src/decode.c:161-174 | dispatch on the first byte returns exactly the value or the error of the reference reading at that position |
| Encoder.BencodeStringLayout | src/bencode.c:3-18 | bencode_string writes strlen's count in decimal, then ':', then the bytes before the first NUL (all of them for a NUL-free string) |
| Encoder.BencodeIntegerLayout | src/bencode.c:21-35 | bencode_integer writes 'i', printf's signed decimal of the integer, then 'e', with no other 'e' in between |
| Encoder.StringAllocationOverrun | src/bencode.c:7-15 | for every string, sprintf's encoding and its NUL take one byte more than bencode_string's malloc size |
| Encoder.IntegerAllocationOverrun | src/bencode.c:24-32 | for every integer, sprintf's encoding and its NUL take one byte more than bencode_integer's malloc size |
| Encoder.AllocationOverrunExamples | src/bencode.c:7-32 | the empty string writes "0:" into a 2-byte block and 0 writes "i0e" into a 3-byte block, each before its NUL |
| Encoder.AllocationsFit | src/bencode.c:7-32 | with the colon and the terminator counted, each encoding and its NUL fill the block exactly |
| Encoder.EncodeDecode | src/bencode.c:97-113 | dispatch on the value's kind returns exactly the encoding of the value, None where the C returns NULL |
| Encoder.BencodeList | src/bencode.c:38-62 | an empty list gives NULL; otherwise "l", the elements' encodings in order, then "e"; a failing element fails the whole list |
| Encoder.BencodeDict | src/bencode.c:65-94 | an empty dictionary gives NULL; otherwise "d", each key's and value's encoding in stored order, then "e" |
| Encoder.EncodeItemsAppend | src/bencode.c:45-56 | the encoding of a concatenated list is the concatenation of the encodings, and it fails if either part fails |
| Encoder.EncodeItemsNone | src/bencode.c:45-56 | one element that cannot be encoded makes the whole list fail |
| RoundTrip.EncodeDefined | src/bencode.c:38-94 | encoding succeeds exactly when no list or dictionary inside the value is empty |
| RoundTrip.DecodeEncodedString | src/bencode.c:3-18 | wherever "len:text" of a NUL-free string sits in a buffer, decoding there gives the string back and stops just after it |
| RoundTrip.DecodeEncodedInteger | src/bencode.c:21-35 | wherever "i%" PRId64 "e" sits in a buffer, decoding there gives the integer back and stops just after it |
| RoundTrip.DecodeOfEncode | src/bencode.c:97-113 | for every value with NUL-free strings and non-empty containers, decoding its encoding gives it back, and find_value_length measures the whole encoding |
| RoundTrip.EncodeInjective | src/bencode.c:97-113 | two such values with the same encoding are equal |
| RoundTrip.EncodeOfDecode | src/decode.c:161-174 | a buffer that decodes whole, in canonical form (no leading zeros, no "-0", no "+", no spaces) and to an encodable value is exactly what encoding that value gives |
| RoundTrip.NegativeIntegerExample | src/decode.c:64-83 | "i-42e" decodes to -42 and is five bytes long |
| Handshake.HandshakeLayout | src/peer.c:5-12 | the packet is 68 bytes: 19 at byte 0, "BitTorrent protocol" at 1-19, zeros at 20-27, the info hash at 28-47, PEER_ID at 48-67 (the constants of src/peer.h:10-12) |
| Handshake.InfoHashOfHandshake | src/peer.c:10 | bytes 28-47 of the packet give back the info hash |
| Handshake.HandshakesDifferOnlyInHash | src/peer.c:5-12 | packets for two hashes agree outside bytes 28-47, and they are equal exactly when the hashes are |
| Handshake.MemSet | src/peer.c:7 | the first n bytes become the given byte and the rest stay as they were |
| Handshake.MemCopy | src/peer.c:9-11 | the source bytes land at the given offset and the rest stay as they were |
| Handshake.ConstructHandshakePacket | src/peer.c:5-12 | the first 68 bytes of the caller's buffer become the handshake for the first 20 bytes of the hash; the rest are untouched |
| Tracker.CompactPeersLength | src/tracker.c:60 | there are length / 6 peers, rounded down |
| Tracker.CompactPeersAt | src/tracker.c:63-69 | peer i has the four bytes at 6i as its address and bytes 6i+4, 6i+5 as its big-endian port |
| Tracker.CompactPeersIgnoresTail | src/tracker.c:60 | bytes after the last whole record do not change the list |
| Tracker.CompactPeersOfEncode | src/tracker.c:63-69 | parsing the six-byte records of a peer list gives that list back |
| Tracker.EncodeOfCompactPeers | src/tracker.c:63-69 | re-encoding the parsed peers gives back every whole record of the string |
| Tracker.ParsePeerRecords | src/tracker.c:58-70 | the loop fills a new array with exactly the compact peers of the string |
| Tracker.FindIndex | src/tracker.c:48 | the index of the first entry with the key; -1 exactly when no entry has it or the value is not a dictionary |
| Tracker.PeersOfResponseCases | src/tracker.c:47-56 | a response without "peers" is an error; otherwise the peers come from the first "peers" entry's string |
| Tracker.GetPeers | src/tracker.c:47-70 | decoding, the lookup and the record loop give exactly the peers of the response, or the error |
| Tracker.Response.constructor | src/tracker.c:20-22 | a response starts as a one-byte buffer of size 0 |
| Tracker.Response.WriteChunk | src/tracker.c:81-97 | the body grows by the chunk's size*nmemb bytes (mod 2^64), the buffer is NUL-terminated after it, and that count is returned |
| Tracker.LineFitsBuffer | src/tracker.c:108-111 | a peer's "ip:port\n" line is at most 22 bytes, so the 256-byte buffer never truncates it |
| Tracker.LinesCount | src/tracker.c:110-116 | the text has as many newlines as there are peers |
| Tracker.PeersListToString | src/tracker.c:105-119 | NULL for no peers; otherwise every peer's line, in order (the intended behaviour) |
| Tracker.PeersListToStringAsWritten | src/tracker.c:105-119 | as written: any C string left in the first allocation comes before the peers' lines |
| Tracker.AsWrittenNeedsZeroedStart | src/tracker.c:114-115 | the as-written text is right exactly when the first allocation starts with a NUL; otherwise it overruns the allocation |
| Tracker.AsWrittenCounterexample | src/tracker.c:114-115 | one peer and an allocation holding "A" give a text with a stray 'A' in front |
| Legacy.LDecodeString | bencode.c:39-59 | succeeds exactly when the first byte is a digit and a ':' follows; a first byte that is not a digit gives InvalidStringFormat |
| Legacy.LDecodeStringBuffer | bencode.c:46-49 | the buffer has length+1 bytes: the copied text up to its first NUL, NUL padding, then a final NUL |
| Legacy.StrncpyOfWindow | bencode.c:48 | strncpy of n bytes is the C string of those n bytes, padded with NULs to n |
| Legacy.LRejectsOtherBytes | bencode.c:105-116 | a leading byte that is not a digit, 'i' or 'l' is UnsupportedValue, a 'd' included, although find_value_length measures a dictionary the newer decoder reads as more than 0 bytes |
| Legacy.LegacyOverrunExample | bencode.c:80-102 | in "l5:abe" the string's length moves the list cursor from 1 to 8, past the buffer and its terminator; the model then rejects the list, while the newer decoder rejects the string with StringOverrun |
| Legacy.LFindValueLength | bencode.c:9-36 | the loop computes find_value_length, the same function as the newer decoder's |
| Legacy.LParseConsumesValueLength | bencode.c:9-36 | whenever a value decodes, find_value_length is exactly what its decoding consumes |
| Legacy.LDecodeBencode | bencode.c:105-116 | dispatch on the first byte returns exactly the value or the error of the legacy reading at that position |
| Legacy.LDecodeList | bencode.c:80-102 | at an 'l' the loop decodes exactly the legacy reading of the list; any other first byte gives InvalidListFormat |
| Legacy.ToLegacyString | bencode.c:46-49 | a string from the newer decoder has a legacy buffer one byte longer, NUL at its end, holding the same C string |
| Legacy.LegacyAgreement | bencode.c:80-116 | on any input, the new decoder reads a dictionary-free value exactly when the legacy one reads a value in bounds, and then the values agree |

## Left out

- Networking is not modelled: curl, the tracker URL, the sockets, and the
  sending and receiving of the handshake (`src/tracker.c:11-45` and the
  rest of `src/peer.c`). The response body and the peer list are
  parameters instead.
- The info hash is an input of 20 bytes or more. The torrent-file reading
  (`src/info.c`) and SHA-1 (`sha1_hash`, `src/sha1.c:3-33`, built on
  OpenSSL) are not modelled.
- The command line and all printing are left out because they only do
  I/O:
  - the printing functions `print_decoded_value` and `print_peers`;
  - the encoder's progress `printf`s (`src/bencode.c:5,16,22,33,40,60,67,92,98`).
- `free` is left out; the model has no freeing.
- The following buffers are modelled as sequence values, not as heap
  blocks updated in place. The model does not capture their aliasing or
  the in-place writes themselves, only the bytes that end up in them:
  - `decode_string`'s `malloc`+`memcpy` copy (`src/decode.c:45-50`);
  - the element arrays that `decode_list` and `decode_dict` `realloc`
    (`src/decode.c:99,140`);
  - the encoder's `malloc`/`realloc`+`strcat` texts
    (`src/bencode.c:8,25,42-54,70-85`);
  - `get_peers`' `raw_addresses_string` copy (`src/tracker.c:55-56`);
  - `peers_list_to_string`'s `realloc`+`strcat` result
    (`src/tracker.c:114-115`);
  - the legacy `strncpy` buffer and list (`bencode.c:47-48,92`).
- Tracker.Response.WriteChunk and Tracker.PeersListToString keep their
  counters as unbounded `nat`s. These are `response->size`,
  `response->size + real_size + 1` and `result_size`, which are `size_t`
  in C. Only the chunk size `size * nmemb` is reduced modulo 2^64
  (`SIZE_T_MODULUS`). A wrap of the other counters would need more than
  2^64 bytes of input.
- Allocation failure and its `exit(1)` are not modelled; every allocation
  succeeds.
- `inet_ntop` is modelled as `Tracker.IpText`, the four bytes in
  dotted-decimal text. The C `Peer` stores that text; the model stores the
  four bytes.
- Decode.DecodeString and Decode.DecodeInteger have unbounded results.
  `atoi` and `atoll` overflow is undefined behaviour in C and is not
  modelled, and neither is `int64_t` range.
- Decode.DecodeString fails with `StringOverrun` whenever the atoi length
  runs past the last byte of the input.
  - Where it runs two or more bytes past, `memcpy` reads out of bounds in C.
  - Where it ends exactly on the terminator, C reads in bounds. For the
    input `1:`, C copies the terminator and returns the one-byte string
    [0]. The model deliberately rejects this case too, so that every
    reading ends inside the input.
- Encoder.BencodeString applies `strlen` to the decoded string, modelled
  as `CStr`. This assumes a NUL right after the string's bytes. In fact
  `decode_string` allocates exactly `length` bytes and writes no
  terminator (`src/decode.c:45-51`), so in C re-encoding any decoded
  string reads past its allocation.
  - RoundTrip.EncodeOfDecode rests on the same assumption.
- Encoder.BencodeString and Encoder.BencodeInteger give the text `sprintf`
  writes. The one-byte heap overrun of their blocks is recorded under
  "## Findings" and does not change that text.
- Encoder.BencodeList and Encoder.BencodeDict model the evident intent: "l"
  or "d", the body, then "e". The C code `strcat`s into uninitialised
  `malloc(2)` memory and `sprintf`s a buffer into itself, which is
  undefined behaviour.
- Encoder.EncodeDecode gives None where a child encodes to NULL. The C
  code would pass that NULL to `strlen` and crash.
- Tracker.FindIndex: `find_index` is not defined in these files. It is
  modelled as the first entry with the key, and -1 when there is none or
  the value is not a dictionary.
- Tracker.GetPeers: the C code reads the "peers" value as a string
  without checking its kind. The model reports `PeersNotAString` for any
  other kind.
- Tracker.PeersListToStringAsWritten is exact for a single peer. With two
  or more peers and a non-empty leftover string, the first `strcat`
  overruns the allocation. A later `realloc` that moves the block copies
  only the allocated bytes, so from then on the C text is undefined. The
  model reads every `realloc` as growing the block in place.
- Tracker.Response.constructor takes the indeterminate byte that
  `malloc(1)` returns as a parameter.
- Tracker.Response.WriteChunk requires `data` to hold `size*nmemb` bytes,
  as curl guarantees. The `realloc` failure path (`CURLE_WRITE_ERROR`) is
  not modelled.
- Legacy reads past the buffer are modelled as NUL bytes (`CText.At`);
  in C they are out of bounds.
  - Example: in `l5:abe` the string claims five bytes where three remain,
    so the list loop (`bencode.c:87`) next reads index 8 of a 7-byte
    buffer. See `Legacy.LegacyOverrunExample`.
- The legacy decoder prints and exits on failure. The model returns an
  `Error` value for each case.

## Findings

| source | as written | input that shows it | evidently intended | confidence | as-written member | corrected member |
|---|---|---|---|---|---|---|
| src/bencode.c:7,24 | bencode_string allocates the digits of the count, the string and one byte, leaving out the colon; bencode_integer allocates the digits and two bytes, leaving out the terminator; `sprintf` (src/bencode.c:15,32) then writes one byte past each block | the empty string: "0:" and its NUL are 3 bytes in a 2-byte block; the integer 0: "i0e" and its NUL are 4 bytes in a 3-byte block | allocate the digits + 1 + the string + 1, and the digits + 3 | not executed | Encoder.StringAllocationOverrun, Encoder.IntegerAllocationOverrun, Encoder.AllocationOverrunExamples | Encoder.AllocationsFit |
| src/tracker.c:106-115 | `result` starts as NULL, and the first `realloc(NULL, n)` returns uninitialised memory; `strcat` then appends after whatever C string that memory holds | one peer 127.0.0.1:6881, with the new allocation starting "A\0": the text is "A127.0.0.1:6881\n", and the text and its NUL need 17 bytes of a 16-byte allocation | start from an empty string, so the text is exactly the peers' lines | not executed | Tracker.PeersListToStringAsWritten, Tracker.AsWrittenCounterexample | Tracker.PeersListToString |
