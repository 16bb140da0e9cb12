/**
 * The byte-level parts of src/tracker.c: the loop of get_peers that turns the
 * tracker's compact "peers" string (BEP 23: six bytes per peer, the IPv4
 * address and then the port, both in network byte order) into a peer list,
 * the curl write callback write_chunk that accumulates the response, and
 * peers_list_to_string, which prints the list one "ip:port" line per peer.
 */
module Tracker {
  import opened Wrappers
  import opened CText
  import opened Decode

  /** An IPv4 address as the four bytes of a struct in_addr. */
  type Address = a: seq<byte> | |a| == 4 witness [0, 0, 0, 0]

  /** The value range of ntohs. */
  type Port = n: int | 0 <= n < 0x1_0000

  /**
   * Peer: the C struct keeps the address as the text inet_ntop writes for it;
   * the model keeps the four bytes and renders the text with IpText.
   */
  datatype Peer = Peer(addr: Address, port: Port)

  const RECORD_LENGTH: nat := 6

  // ---------------------------------------------------------------------
  // The compact peer list

  /** One six-byte record: memcpy of the address, ntohs of the last two bytes. */
  function PeerOfRecord(r: seq<byte>): Peer
    requires |r| >= RECORD_LENGTH
  {
    Peer(r[..4], r[4] as int * 256 + r[5] as int)
  }

  /** The peers of a compact string, record after record; a final piece
      shorter than a record is not a peer. */
  function CompactPeers(raw: seq<byte>): seq<Peer>
    decreases |raw|
  {
    if |raw| < RECORD_LENGTH then []
    else [PeerOfRecord(raw[..RECORD_LENGTH])] + CompactPeers(raw[RECORD_LENGTH..])
  }

  /** peersList.count is the length divided by six, rounded down. */
  lemma {:induction false} CompactPeersLength(raw: seq<byte>)
    ensures |CompactPeers(raw)| == |raw| / RECORD_LENGTH
    decreases |raw|
  {
    if |raw| >= RECORD_LENGTH {
      CompactPeersLength(raw[RECORD_LENGTH..]);
    }
  }

  /** Peer i comes from bytes 6i to 6i+5: the address from the first four, in
      order, the port big-endian from the last two. */
  lemma {:induction false} CompactPeersAt(raw: seq<byte>, i: nat)
    requires RECORD_LENGTH * i + RECORD_LENGTH <= |raw|
    ensures i < |CompactPeers(raw)|
    ensures CompactPeers(raw)[i] == Peer(raw[6 * i .. 6 * i + 4], raw[6 * i + 4] as int * 256 + raw[6 * i + 5] as int)
    decreases i
  {
    CompactPeersLength(raw);
    if i > 0 {
      var rest := raw[RECORD_LENGTH..];
      CompactPeersAt(rest, i - 1);
      assert rest[6 * (i - 1) .. 6 * (i - 1) + 4] == raw[6 * i .. 6 * i + 4];
      assert rest[6 * (i - 1) + 4] == raw[6 * i + 4] && rest[6 * (i - 1) + 5] == raw[6 * i + 5];
    }
  }

  /** Bytes after the last whole record do not change the list. */
  lemma {:induction false} CompactPeersIgnoresTail(raw: seq<byte>)
    ensures CompactPeers(raw) == CompactPeers(raw[..|raw| / RECORD_LENGTH * RECORD_LENGTH])
    decreases |raw|
  {
    var whole := raw[..|raw| / RECORD_LENGTH * RECORD_LENGTH];
    if |raw| >= RECORD_LENGTH {
      var rest := raw[RECORD_LENGTH..];
      CompactPeersIgnoresTail(rest);
      assert whole[..RECORD_LENGTH] == raw[..RECORD_LENGTH];
      assert whole[RECORD_LENGTH..] == rest[..|rest| / RECORD_LENGTH * RECORD_LENGTH];
    }
  }

  /** The six bytes a tracker sends for a peer. */
  function RecordOf(p: Peer): (r: seq<byte>)
    ensures |r| == RECORD_LENGTH
  {
    p.addr + [(p.port / 256) as byte, (p.port % 256) as byte]
  }

  /** A compact peer string: the records one after the other. */
  function CompactEncode(peers: seq<Peer>): (r: seq<byte>)
    ensures |r| == RECORD_LENGTH * |peers|
  {
    if peers == [] then [] else RecordOf(peers[0]) + CompactEncode(peers[1..])
  }

  /** Parsing a compact string gives back the peers it was built from. */
  lemma {:induction false} CompactPeersOfEncode(peers: seq<Peer>)
    ensures CompactPeers(CompactEncode(peers)) == peers
  {
    if peers != [] {
      var raw := CompactEncode(peers);
      assert raw[..RECORD_LENGTH] == RecordOf(peers[0]);
      assert raw[RECORD_LENGTH..] == CompactEncode(peers[1..]);
      var p := peers[0];
      assert PeerOfRecord(RecordOf(p)) == p by {
        var r := RecordOf(p);
        assert r[..4] == p.addr;
        assert r[4] as int * 256 + r[5] as int == p.port;
      }
      CompactPeersOfEncode(peers[1..]);
    }
  }

  /** Re-encoding the parsed peers gives back every whole record. */
  lemma {:induction false} EncodeOfCompactPeers(raw: seq<byte>)
    ensures CompactEncode(CompactPeers(raw)) == raw[..|raw| / RECORD_LENGTH * RECORD_LENGTH]
    decreases |raw|
  {
    if |raw| >= RECORD_LENGTH {
      var rest := raw[RECORD_LENGTH..];
      EncodeOfCompactPeers(rest);
      var r := raw[..RECORD_LENGTH];
      assert RecordOf(PeerOfRecord(r)) == r by {
        var p := PeerOfRecord(r);
        assert (p.port / 256) as byte == r[4] && (p.port % 256) as byte == r[5];
        assert RecordOf(p) == r[..4] + [r[4], r[5]];
      }
      var whole := raw[..|raw| / RECORD_LENGTH * RECORD_LENGTH];
      assert whole == r + rest[..|rest| / RECORD_LENGTH * RECORD_LENGTH];
    }
  }

  /** get_peers' loop: peersList.count records, peer i read from bytes 6i..6i+5. */
  method ParsePeerRecords(raw: seq<byte>) returns (peers: array<Peer>)
    ensures fresh(peers)
    ensures peers[..] == CompactPeers(raw)
  {
    var count := |raw| / RECORD_LENGTH;
    CompactPeersLength(raw);
    peers := new Peer[count](_ => Peer([0, 0, 0, 0], 0));
    for i := 0 to count
      invariant peers[..i] == CompactPeers(raw)[..i]
    {
      var ip: Address := raw[i * 6 .. i * 6 + 4];
      var port := raw[i * 6 + 4] as int * 256 + raw[i * 6 + 5] as int;
      CompactPeersAt(raw, i);
      peers[i] := Peer(ip, port);
      assert peers[..i + 1] == peers[..i] + [peers[i]];
      assert CompactPeers(raw)[..i + 1] == CompactPeers(raw)[..i] + [CompactPeers(raw)[i]];
    }
    assert peers[..] == peers[..count];
  }

  // ---------------------------------------------------------------------
  // The "peers" entry of the tracker's response

  /** Why get_peers gives up (it prints and exits). */
  datatype TrackerError =
    | ResponseUndecodable(cause: Error)  // decode_bencode of the response fails
    | PeersKeyNotFound                 // find_index reports -1
    | PeersNotAString                  // the "peers" value is not a compact string

  const PeersKey: seq<byte> := Ascii("peers")

  /** find_index(value, key): the position of the first entry with that key,
      -1 when there is none (or the value is not a dictionary). */
  function FindIndex(v: Value, key: seq<byte>): (r: int)
    ensures -1 <= r
    ensures r == -1 <==> !v.Dict? || forall k | 0 <= k < |v.entries| :: v.entries[k].0 != key
    ensures r >= 0 ==> v.Dict? && r < |v.entries| && v.entries[r].0 == key
    ensures r >= 0 ==> forall k | 0 <= k < r :: v.entries[k].0 != key
  {
    if !v.Dict? then -1 else FirstKey(v.entries, key, 0)
  }

  function FirstKey(entries: seq<(seq<byte>, Value)>, key: seq<byte>, from: nat): (r: int)
    requires from <= |entries|
    ensures -1 <= r < |entries|
    ensures r == -1 <==> forall k | from <= k < |entries| :: entries[k].0 != key
    ensures r >= 0 ==> from <= r && entries[r].0 == key
    ensures r >= 0 ==> forall k | from <= k < r :: entries[k].0 != key
    decreases |entries| - from
  {
    if from == |entries| then -1
    else if entries[from].0 == key then from
    else FirstKey(entries, key, from + 1)
  }

  /** What get_peers makes of the response body: decode it, look up "peers",
      and parse its bytes as a compact peer list. */
  function PeersOfResponse(response: seq<byte>): Result<seq<Peer>, TrackerError>
  {
    match ValueOf(Parse(response, 0))
    case Err(e) => Err(ResponseUndecodable(e))
    case Ok(v) =>
      var index := FindIndex(v, PeersKey);
      if index == -1 then Err(PeersKeyNotFound)
      else if !v.entries[index].1.Str? then Err(PeersNotAString)
      else Ok(CompactPeers(v.entries[index].1.bytes))
  }

  /** A response without a "peers" key is a failure, and one whose first
      "peers" entry holds a string yields exactly that string's records. */
  lemma PeersOfResponseCases(response: seq<byte>, entries: seq<(seq<byte>, Value)>)
    requires ValueOf(Parse(response, 0)) == Ok(Dict(entries))
    ensures (forall k | 0 <= k < |entries| :: entries[k].0 != PeersKey)
              <==> PeersOfResponse(response) == Err(PeersKeyNotFound)
    ensures forall i, raw | 0 <= i < |entries| && entries[i] == (PeersKey, Str(raw))
                        && (forall k | 0 <= k < i :: entries[k].0 != PeersKey) ::
              PeersOfResponse(response) == Ok(CompactPeers(raw))
  {
  }

  /** get_peers from the decoding of the response on. */
  method GetPeers(response: seq<byte>) returns (r: Result<seq<Peer>, TrackerError>)
    ensures r == PeersOfResponse(response)
  {
    var decodedResponse := DecodeBencode(response, 0);
    if decodedResponse.Err? {
      return Err(ResponseUndecodable(decodedResponse.error));
    }
    var peersIndex := FindIndex(decodedResponse.value, PeersKey);
    if peersIndex == -1 {
      return Err(PeersKeyNotFound);
    }
    var peersValue := decodedResponse.value.entries[peersIndex].1;
    if !peersValue.Str? {
      return Err(PeersNotAString);
    }
    var peers := ParsePeerRecords(peersValue.bytes);
    return Ok(peers[..]);
  }

  // ---------------------------------------------------------------------
  // write_chunk

  /** size_t arithmetic wraps modulo 2^64. */
  const SIZE_T_MODULUS: nat := 0x1_0000_0000_0000_0000

  /** Response: the bytes received so far in `buffer`, `size` of them, with the
      buffer one byte longer for the terminator. */
  class Response {
    var buffer: seq<byte>
    var size: nat

    predicate Valid()
      reads this
    {
      |buffer| == size + 1
    }

    /** The body received so far. */
    function Contents(): seq<byte>
      reads this
      requires Valid()
    {
      buffer[..size]
    }

    /** get_peers starts from malloc(1) and size 0; the byte malloc returns is
        whatever the allocator left there. */
    constructor (uninitialised: byte)
      ensures Valid() && size == 0 && buffer == [uninitialised]
    {
      buffer := [uninitialised];
      size := 0;
    }

    /**
     * write_chunk(data, itemSize, nmemb, this): grow the buffer to size +
     * itemSize * nmemb + 1 bytes, copy the chunk to the end of the body, move
     * size past it and terminate the buffer with a NUL.  Returns the chunk's
     * length.
     */
    method WriteChunk(data: seq<byte>, itemSize: nat, nmemb: nat) returns (written: nat)
      requires Valid()
      requires (itemSize * nmemb) % SIZE_T_MODULUS <= |data|
      modifies this
      ensures Valid()
      ensures written == (itemSize * nmemb) % SIZE_T_MODULUS
      ensures Contents() == old(Contents()) + data[..written]
      ensures size == old(size) + written && buffer[size] == NUL
    {
      var realSize := (itemSize * nmemb) % SIZE_T_MODULUS;
      // realloc keeps the first size + 1 bytes; the new ones are indeterminate
      var grown := buffer + seq(realSize, _ => NUL);
      // memcpy(&string[size], data, realSize)
      grown := grown[..size] + data[..realSize] + grown[size + realSize..];
      buffer := grown;
      size := size + realSize;
      buffer := buffer[size := NUL];
      return realSize;
    }
  }

  // ---------------------------------------------------------------------
  // peers_list_to_string

  /** Powers of ten. */
  function Pow10(k: nat): nat
  {
    if k == 0 then 1 else 10 * Pow10(k - 1)
  }

  /** "%d" of a number below 10^k has at most k digits. */
  lemma {:induction false} DecimalLength(n: nat, k: nat)
    requires 1 <= k && n < Pow10(k)
    ensures |Decimal(n)| <= k
    decreases k
  {
    if n >= 10 {
      TensBounds(n);
      assert k >= 2 && Pow10(k) == 10 * Pow10(k - 1);
      DecimalLength(Tens(n), k - 1);
      assert |Decimal(n)| == |Decimal(Tens(n))| + 1;
    }
  }

  /** inet_ntop for AF_INET: the dotted-decimal text of the four bytes. */
  function IpText(a: Address): seq<byte>
  {
    Decimal(a[0] as nat) + [DOT] + Decimal(a[1] as nat) + [DOT] + Decimal(a[2] as nat) + [DOT] + Decimal(a[3] as nat)
  }

  /** The line snprintf writes for a peer: "%s:%d\n". */
  function Line(p: Peer): seq<byte>
  {
    IpText(p.addr) + [COLON] + Decimal(p.port) + [NEWLINE]
  }

  /** A peer's line is at most 15 + 1 + 5 + 1 bytes, so snprintf never
      truncates it to the 256-byte buffer. */
  lemma LineFitsBuffer(p: Peer)
    ensures |Line(p)| <= 22 < 256
  {
    assert Pow10(3) == 1000 && Pow10(5) == 100000;
    DecimalLength(p.addr[0] as nat, 3);
    DecimalLength(p.addr[1] as nat, 3);
    DecimalLength(p.addr[2] as nat, 3);
    DecimalLength(p.addr[3] as nat, 3);
    DecimalLength(p.port, 5);
  }

  /** The lines of the peers, in their order. */
  function Lines(peers: seq<Peer>): seq<byte>
  {
    if peers == [] then [] else Line(peers[0]) + Lines(peers[1..])
  }

  lemma {:induction false} LinesSnoc(peers: seq<Peer>, p: Peer)
    ensures Lines(peers + [p]) == Lines(peers) + Line(p)
  {
    if peers == [] {
      assert peers + [p] == [p];
    } else {
      assert (peers + [p])[1..] == peers[1..] + [p];
      LinesSnoc(peers[1..], p);
    }
  }

  /** How many times `c` occurs in `s`. */
  function Occurrences(s: seq<byte>, c: byte): nat
  {
    if s == [] then 0 else (if s[0] == c then 1 else 0) + Occurrences(s[1..], c)
  }

  lemma {:induction false} OccurrencesAppend(a: seq<byte>, b: seq<byte>, c: byte)
    ensures Occurrences(a + b, c) == Occurrences(a, c) + Occurrences(b, c)
  {
    if a == [] {
      assert a + b == b;
    } else {
      assert (a + b)[1..] == a[1..] + b;
      OccurrencesAppend(a[1..], b, c);
    }
  }

  lemma {:induction false} DigitsHaveNoNewline(n: nat)
    ensures Occurrences(Decimal(n), NEWLINE) == 0
  {
    if n >= 10 {
      TensBounds(n);
      DigitsHaveNoNewline(Tens(n));
      OccurrencesAppend(Decimal(Tens(n)), [(ZERO as int + (n - Tens(n) * 10)) as byte], NEWLINE);
    }
  }

  /** Each peer's line holds exactly one newline, at its end. */
  lemma OneNewlinePerLine(p: Peer)
    ensures Occurrences(Line(p), NEWLINE) == 1
    ensures Line(p)[|Line(p)| - 1] == NEWLINE
  {
    var a := p.addr;
    DigitsHaveNoNewline(a[0] as nat);
    DigitsHaveNoNewline(a[1] as nat);
    DigitsHaveNoNewline(a[2] as nat);
    DigitsHaveNoNewline(a[3] as nat);
    DigitsHaveNoNewline(p.port);
    OccurrencesAppend(Decimal(a[0] as nat), [DOT], NEWLINE);
    OccurrencesAppend(Decimal(a[0] as nat) + [DOT], Decimal(a[1] as nat), NEWLINE);
    OccurrencesAppend(Decimal(a[0] as nat) + [DOT] + Decimal(a[1] as nat), [DOT], NEWLINE);
    OccurrencesAppend(Decimal(a[0] as nat) + [DOT] + Decimal(a[1] as nat) + [DOT], Decimal(a[2] as nat), NEWLINE);
    OccurrencesAppend(Decimal(a[0] as nat) + [DOT] + Decimal(a[1] as nat) + [DOT] + Decimal(a[2] as nat), [DOT], NEWLINE);
    OccurrencesAppend(Decimal(a[0] as nat) + [DOT] + Decimal(a[1] as nat) + [DOT] + Decimal(a[2] as nat) + [DOT], Decimal(a[3] as nat), NEWLINE);
    OccurrencesAppend(IpText(a), [COLON], NEWLINE);
    OccurrencesAppend(IpText(a) + [COLON], Decimal(p.port), NEWLINE);
    OccurrencesAppend(IpText(a) + [COLON] + Decimal(p.port), [NEWLINE], NEWLINE);
  }

  /** The text has one line per peer: as many newlines as peers. */
  lemma {:induction false} LinesCount(peers: seq<Peer>)
    ensures Occurrences(Lines(peers), NEWLINE) == |peers|
  {
    if peers != [] {
      OneNewlinePerLine(peers[0]);
      LinesCount(peers[1..]);
      OccurrencesAppend(Line(peers[0]), Lines(peers[1..]), NEWLINE);
    }
  }

  /**
   * peers_list_to_string: for each peer, snprintf its line into a buffer,
   * grow the result by the line's length and strcat the line onto it.  With
   * no peers the result stays NULL.
   */
  method PeersListToString(peers: seq<Peer>) returns (result: Option<seq<byte>>)
    ensures result == if peers == [] then None else Some(Lines(peers))
  {
    result := None;
    var resultSize: nat := 0;
    for i := 0 to |peers|
      invariant i == 0 ==> result == None
      invariant i > 0 ==> result == Some(Lines(peers[..i]))
      invariant resultSize == |Lines(peers[..i])|
    {
      LineFitsBuffer(peers[i]);
      var buffer := Line(peers[i]);
      resultSize := resultSize + |buffer|;
      var text := if result.Some? then result.value else [];
      LinesSnoc(peers[..i], peers[i]);
      assert peers[..i + 1] == peers[..i] + [peers[i]];
      result := Some(text + buffer);
    }
    assert peers[..|peers|] == peers;
  }

  /**
   * peers_list_to_string as the source writes it.  realloc(NULL, n) returns
   * uninitialised memory, here the bytes `junk`, and the first strcat appends
   * after the C string they happen to hold.  With a non-empty prefix that
   * strcat overruns the allocation; the later turns are read as if each
   * realloc grew the block in place, so that the prefix stays.
   */
  method PeersListToStringAsWritten(peers: seq<Peer>, junk: seq<byte>) returns (result: Option<seq<byte>>)
    ensures result == if peers == [] then None else Some(CStr(junk) + Lines(peers))
  {
    var prefix := CStr(junk);
    result := None;
    var resultSize: nat := 0;
    for i := 0 to |peers|
      invariant i == 0 ==> result == None
      invariant i > 0 ==> result == Some(prefix + Lines(peers[..i]))
      invariant resultSize == |Lines(peers[..i])|
    {
      var buffer := Line(peers[i]);
      resultSize := resultSize + |buffer|;
      var text := if result.Some? then result.value else prefix;
      AppendLine(prefix, peers, i);
      result := Some(text + buffer);
    }
    assert peers[..|peers|] == peers;
  }

  /** Appending the next peer's line to what precedes it. */
  lemma AppendLine(prefix: seq<byte>, peers: seq<Peer>, i: nat)
    requires i < |peers|
    ensures |Lines(peers[..i + 1])| == |Lines(peers[..i])| + |Line(peers[i])|
    ensures (prefix + Lines(peers[..i])) + Line(peers[i]) == prefix + Lines(peers[..i + 1])
    ensures i == 0 ==> prefix + Line(peers[i]) == prefix + Lines(peers[..i + 1])
  {
    var before := Lines(peers[..i]);
    assert Lines(peers[..i + 1]) == before + Line(peers[i]) by {
      assert peers[..i + 1] == peers[..i] + [peers[i]];
      LinesSnoc(peers[..i], peers[i]);
    }
    if i == 0 {
      assert before == [] by {
        assert peers[..i] == [];
      }
    }
  }

  /** The text the source builds for a non-empty list is the intended one
      exactly when the fresh allocation happens to start with a NUL; the
      allocation of |Lines(peers)| + 1 bytes is overrun otherwise. */
  lemma AsWrittenNeedsZeroedStart(peers: seq<Peer>, junk: seq<byte>)
    requires peers != []
    ensures CStr(junk) + Lines(peers) == Lines(peers) <==> junk == [] || junk[0] == NUL
    ensures |CStr(junk) + Lines(peers)| + 1 > |Lines(peers)| + 1 <==> !(junk == [] || junk[0] == NUL)
  {
    if !(junk == [] || junk[0] == NUL) {
      assert |CStr(junk)| > 0;
      assert |CStr(junk) + Lines(peers)| != |Lines(peers)|;
    } else {
      assert CStr(junk) == [];
      assert [] + Lines(peers) == Lines(peers);
    }
  }

  /** A concrete case: one peer 127.0.0.1:6881 and an allocation starting
      "A\0" give the line with a stray 'A' in front. */
  lemma AsWrittenCounterexample()
    ensures var p := Peer([127, 0, 0, 1], 6881);
      CStr([65, 0]) + Lines([p]) == [65] + Lines([p]) != Lines([p])
  {
    var p := Peer([127, 0, 0, 1], 6881);
    assert CStr([65 as byte, 0]) == [65];
    assert |[65 as byte] + Lines([p])| == |Lines([p])| + 1;
  }
}
