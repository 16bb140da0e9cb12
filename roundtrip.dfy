/**
 * How the encoder of src/bencode.c and the decoder of src/decode.c fit
 * together.  encode_decode returns NULL exactly for values holding an empty
 * container; decoding an encoding gives the value back when its strings and
 * keys hold no NUL byte (the encoder measures them with strlen); and
 * encoding a decoded value gives the text back when that text is written
 * canonically (no leading zeros, no sign or padding around integers, keys
 * free of NUL).  The last fact is what makes re-hashing a decoded `info`
 * dictionary meaningful.
 */
module RoundTrip {
  import opened Wrappers
  import opened CText
  import opened Decode
  import opened Encoder

  /** No list or dictionary inside `v` is empty. */
  predicate NonEmpty(v: Value)
    decreases v
  {
    match v
    case Str(_) => true
    case Int(_) => true
    case List(items) => |items| > 0 && NonEmptyItems(items)
    case Dict(entries) => |entries| > 0 && NonEmptyEntries(entries)
  }

  predicate NonEmptyItems(items: seq<Value>)
    decreases items
  {
    items == [] || (NonEmpty(items[0]) && NonEmptyItems(items[1..]))
  }

  predicate NonEmptyEntries(entries: seq<(seq<byte>, Value)>)
    decreases entries
  {
    entries == [] || (assert entries[0].1 < entries[0]; NonEmpty(entries[0].1) && NonEmptyEntries(entries[1..]))
  }

  /** Values the encoder writes faithfully: no empty container, no NUL in a string or key. */
  predicate Encodable(v: Value)
    decreases v
  {
    match v
    case Str(d) => NulFree(d)
    case Int(_) => true
    case List(items) => |items| > 0 && EncodableItems(items)
    case Dict(entries) => |entries| > 0 && EncodableEntries(entries)
  }

  predicate EncodableItems(items: seq<Value>)
    decreases items
  {
    items == [] || (Encodable(items[0]) && EncodableItems(items[1..]))
  }

  predicate EncodableEntries(entries: seq<(seq<byte>, Value)>)
    decreases entries
  {
    entries == []
    || (assert entries[0].1 < entries[0];
        NulFree(entries[0].0) && Encodable(entries[0].1) && EncodableEntries(entries[1..]))
  }

  /** encode_decode produces output exactly when no container inside the value is empty. */
  lemma {:induction false} EncodeDefined(v: Value)
    ensures Encode(v).Some? <==> NonEmpty(v)
    decreases v
  {
    match v
    case Str(_) =>
    case Int(_) =>
    case List(items) => EncodeItemsDefined(items);
    case Dict(entries) => EncodeEntriesDefined(entries);
  }

  lemma {:induction false} EncodeItemsDefined(items: seq<Value>)
    ensures EncodeItems(items).Some? <==> NonEmptyItems(items)
    decreases items
  {
    if items != [] {
      EncodeDefined(items[0]);
      EncodeItemsDefined(items[1..]);
    }
  }

  lemma {:induction false} EncodeEntriesDefined(entries: seq<(seq<byte>, Value)>)
    ensures EncodeEntries(entries).Some? <==> NonEmptyEntries(entries)
    decreases entries
  {
    if entries != [] {
      assert entries[0].1 < entries[0];
      EncodeDefined(entries[0].1);
      EncodeEntriesDefined(entries[1..]);
    }
  }

  // ---------------------------------------------------------------------------
  // Decoding an encoding
  //
  // Each lemma looks at one buffer `s` in which the encoding sits at index `i`,
  // whatever bytes surround it.

  /** Encodable values (and lists, dictionaries of them) have an encoding. */
  lemma {:induction false} EncodableIsNonEmpty(v: Value)
    requires Encodable(v)
    ensures NonEmpty(v) && Encode(v).Some?
    decreases v
  {
    match v
    case Str(_) =>
    case Int(_) =>
    case List(items) => EncodableItemsAreNonEmpty(items); EncodeDefined(v);
    case Dict(entries) => EncodableEntriesAreNonEmpty(entries); EncodeDefined(v);
  }

  lemma {:induction false} EncodableItemsAreNonEmpty(items: seq<Value>)
    requires EncodableItems(items)
    ensures NonEmptyItems(items)
    decreases items
  {
    if items != [] {
      EncodableIsNonEmpty(items[0]);
      EncodableItemsAreNonEmpty(items[1..]);
    }
  }

  lemma {:induction false} EncodableEntriesAreNonEmpty(entries: seq<(seq<byte>, Value)>)
    requires EncodableEntries(entries)
    ensures NonEmptyEntries(entries)
    decreases entries
  {
    if entries != [] {
      assert entries[0].1 < entries[0];
      EncodableIsNonEmpty(entries[0].1);
      EncodableEntriesAreNonEmpty(entries[1..]);
    }
  }

  /** A slice holding a + b holds a, then b. */
  lemma Split(s: seq<byte>, i: nat, j: nat, k: nat, a: seq<byte>, b: seq<byte>)
    requires i <= j <= k <= |s| && j - i == |a| && k - j == |b|
    requires s[i..k] == a + b
    ensures s[i..j] == a && s[j..k] == b
  {
    assert forall t | i <= t < k :: s[t] == (a + b)[t - i];
    assert s[i..j] == a;
  }

  /** A slice holding a + b + c holds a, then b, then c. */
  lemma Split3(s: seq<byte>, i: nat, j: nat, k: nat, l: nat, a: seq<byte>, b: seq<byte>, c: seq<byte>)
    requires i <= j <= k <= l <= |s| && j - i == |a| && k - j == |b| && l - k == |c|
    requires s[i..l] == a + b + c
    ensures s[i..j] == a && s[j..k] == b && s[k..l] == c
  {
    Split(s, i, k, l, a + b, c);
    Split(s, i, j, k, a, b);
  }

  /** strchr and atoi see "%zu:" written at `i`, the colon at `m`. */
  lemma LengthPrefixRead(s: seq<byte>, i: nat, m: nat, n: nat)
    requires i <= m < |s| && m - i == |Decimal(n)| && s[i..m] == Decimal(n) && s[m] == COLON
    ensures IsDigit(At(s, i))
    ensures StrChr(s, i, COLON) == Some(m)
    ensures LeadingNumber(s, i) == n
  {
    var D := Decimal(n);
    assert forall k | i <= k < m :: s[k] == D[k - i];
    DecimalParses(s, i, n);
    StrChrFinds(s, i, COLON, m);
  }

  /** decode_string at a length prefix reading n whose colon strchr finds. */
  lemma StringRead(s: seq<byte>, i: nat, n: nat, colon: nat, j: nat)
    requires IsDigit(At(s, i)) && LeadingNumber(s, i) == n && StrChr(s, i, COLON) == Some(colon)
    requires j == colon + 1 + n <= |s|
    ensures Parse(s, i) == Ok((Str(s[colon + 1 .. j]), j))
  {
  }

  /** decode_string reads back bencode_string of a NUL-free string. */
  lemma DecodeEncodedString(d: seq<byte>, s: seq<byte>, i: nat, j: nat)
    requires NulFree(d)
    requires i <= j <= |s| && s[i..j] == BencodeString(d)
    ensures Parse(s, i) == Ok((Str(d), j))
  {
    CStrOfNulFree(d);
    var D := Decimal(|d|);
    assert BencodeString(d) == D + [COLON] + d;
    var m := i + |D|;
    Split3(s, i, m, m + 1, j, D, [COLON], d);
    assert s[m] == s[m .. m + 1][0];
    LengthPrefixRead(s, i, m, |d|);
    StringRead(s, i, |d|, m, j);
  }

  /** strchr finds the 'e' closing a PRId64 integer written at `i`. */
  lemma IntegerRead(s: seq<byte>, i: nat, j: nat, n: int)
    requires i <= j <= |s| && s[i..j] == BencodeInteger(n)
    ensures i + 2 <= j && At(s, i) == LOWER_I
    ensures StrChr(s, i, LOWER_E) == Some(j - 1)
    ensures s[i + 1 .. j - 1] == SignedDecimal(n)
  {
    var T := SignedDecimal(n);
    Split3(s, i, i + 1, j - 1, j, [LOWER_I], T, [LOWER_E]);
    assert s[i] == s[i .. i + 1][0] && s[j - 1] == s[j - 1 .. j][0];
    assert forall k | 0 <= k < |T| :: T[k] == MINUS || IsDigit(T[k]);
    assert forall k | i + 1 <= k < j - 1 :: s[k] == T[k - i - 1];
    StrChrFinds(s, i, LOWER_E, j - 1);
  }

  /** decode_integer reads back bencode_integer. */
  lemma DecodeEncodedInteger(n: int, s: seq<byte>, i: nat, j: nat)
    requires i <= j <= |s| && s[i..j] == BencodeInteger(n)
    ensures Parse(s, i) == Ok((Int(n), j))
  {
    IntegerRead(s, i, j, n);
    CAtollSignedDecimal(n);
    assert DecodeInteger(s, i) == Ok(Int(n));
  }

  /** A slice is the concatenation of its two halves. */
  lemma Join(s: seq<byte>, i: nat, j: nat, k: nat)
    requires i <= j <= k <= |s|
    ensures s[i..k] == s[i..j] + s[j..k]
  {
  }

  /** A slice is the concatenation of its three parts. */
  lemma Join3(s: seq<byte>, i: nat, j: nat, k: nat, l: nat)
    requires i <= j <= k <= l <= |s|
    ensures s[i..l] == s[i..j] + s[j..k] + s[k..l]
  {
    Join(s, i, k, l);
    Join(s, i, j, k);
  }

  /** A slice of two or more bytes is its first byte, its inside and its last byte. */
  lemma Frame(s: seq<byte>, i: nat, j: nat)
    requires i + 2 <= j <= |s|
    ensures s[i..j] == [s[i]] + s[i + 1 .. j - 1] + [s[j - 1]]
  {
  }

  /** decode_bencode reads back encode_decode of an encodable value. */
  lemma {:induction false} DecodeEncoded(v: Value, s: seq<byte>, i: nat, j: nat)
    requires i <= j <= |s| && Encodable(v) && Encode(v) == Some(s[i..j])
    ensures Parse(s, i) == Ok((v, j))
    decreases v, 2
  {
    match v
    case Str(d) => DecodeEncodedString(d, s, i, j);
    case Int(n) => DecodeEncodedInteger(n, s, i, j);
    case List(items) => DecodeEncodedList(items, s, i, j);
    case Dict(entries) => DecodeEncodedDict(entries, s, i, j);
  }

  /** Where "l" ++ body ++ "e" (or "d" ++ body ++ "e") written at `i` puts its parts. */
  lemma ContainerLayout(s: seq<byte>, i: nat, j: nat, opener: byte, body: seq<byte>)
    requires i <= j <= |s| && s[i..j] == [opener] + body + [LOWER_E]
    ensures i + 2 <= j && s[i] == opener && s[j - 1] == LOWER_E && s[i + 1 .. j - 1] == body
  {
    Split3(s, i, i + 1, j - 1, j, [opener], body, [LOWER_E]);
    assert s[i] == s[i .. i + 1][0] && s[j - 1] == s[j - 1 .. j][0];
  }

  /** decode_list at an 'l' whose elements are read up to position j. */
  lemma ListRead(s: seq<byte>, i: nat, items: seq<Value>, j: nat)
    requires i < |s| && s[i] == LOWER_L && ParseItems(s, i + 1, []) == Ok(([] + items, j))
    ensures Parse(s, i) == Ok((List(items), j))
  {
    assert [] + items == items;
  }

  /** decode_dict at a 'd' whose entries are read up to position j. */
  lemma DictRead(s: seq<byte>, i: nat, entries: seq<(seq<byte>, Value)>, j: nat)
    requires i < |s| && s[i] == LOWER_D && ParseEntries(s, i + 1, []) == Ok(([] + entries, j))
    ensures Parse(s, i) == Ok((Dict(entries), j))
  {
    assert [] + entries == entries;
  }

  lemma {:induction false} DecodeEncodedList(items: seq<Value>, s: seq<byte>, i: nat, j: nat)
    requires i <= j <= |s| && |items| > 0 && EncodableItems(items) && Encode(List(items)) == Some(s[i..j])
    ensures Parse(s, i) == Ok((List(items), j))
    decreases items, 1
  {
    var body := EncodeItems(items).value;
    ContainerLayout(s, i, j, LOWER_L, body);
    DecodeEncodedItems(items, s, i + 1, j - 1, []);
    ListRead(s, i, items, j);
  }

  lemma {:induction false} DecodeEncodedDict(entries: seq<(seq<byte>, Value)>, s: seq<byte>, i: nat, j: nat)
    requires i <= j <= |s| && |entries| > 0 && EncodableEntries(entries) && Encode(Dict(entries)) == Some(s[i..j])
    ensures Parse(s, i) == Ok((Dict(entries), j))
    decreases entries, 3
  {
    var body := EncodeEntries(entries).value;
    ContainerLayout(s, i, j, LOWER_D, body);
    DecodeEncodedEntries(entries, s, i + 1, j - 1, []);
    DictRead(s, i, entries, j);
  }

  /** The list reading from `q` reads back the element encodings held in s[q..r], then the 'e' at `r`. */
  lemma {:induction false} DecodeEncodedItems(items: seq<Value>, s: seq<byte>, q: nat, r: nat, acc: seq<Value>)
    requires q <= r < |s| && EncodableItems(items) && EncodeItems(items) == Some(s[q..r]) && s[r] == LOWER_E
    ensures ParseItems(s, q, acc) == Ok((acc + items, r + 1))
    decreases items, 0
  {
    if items == [] {
      assert acc + items == acc;
    } else {
      var x := items[0];
      var head := Encode(x).value;
      var tail := EncodeItems(items[1..]).value;
      assert s[q..r] == head + tail;
      assert r - q == |s[q..r]| == |head| + |tail|;
      var m := q + |head|;
      Split(s, q, m, r, head, tail);
      DecodeEncoded(x, s, q, m);
      ItemsStep(s, q, acc, x, m);
      DecodeEncodedItems(items[1..], s, m, r, acc + [x]);
      assert acc + [x] + items[1..] == acc + items;
    }
  }

  /** decode_dict's reading of one entry reads back a key's and a value's encodings. */
  lemma {:induction false} DecodeEncodedEntry(key: seq<byte>, val: Value, s: seq<byte>, q: nat, m: nat, r: nat)
    requires q <= m <= r <= |s| && NulFree(key) && Encodable(val)
    requires s[q..m] == BencodeString(key) && Encode(val) == Some(s[m..r])
    ensures ParseEntry(s, q) == Ok(((key, val), r))
    decreases val, 3
  {
    DecodeEncodedString(key, s, q, m);
    DecodeEncoded(val, s, m, r);
    CStrOfNulFree(key);
  }

  /** The first entry of a dictionary body held in s[q..r], and where the rest starts. */
  lemma {:induction false} DecodeEncodedFirstEntry(entries: seq<(seq<byte>, Value)>, s: seq<byte>, q: nat, r: nat)
    returns (m: nat)
    requires q <= r <= |s| && entries != [] && EncodableEntries(entries) && EncodeEntries(entries) == Some(s[q..r])
    ensures q < m <= r && ParseEntry(s, q) == Ok((entries[0], m))
    ensures EncodableEntries(entries[1..]) && EncodeEntries(entries[1..]) == Some(s[m..r])
    decreases entries, 1
  {
    var (key, val) := entries[0];
    assert val < entries[0];
    var k := BencodeString(key);
    var ev := Encode(val).value;
    var tail := EncodeEntries(entries[1..]).value;
    assert s[q..r] == k + ev + tail;
    assert r - q == |s[q..r]| == |k| + |ev| + |tail|;
    var m1 := q + |k|;
    m := m1 + |ev|;
    Split3(s, q, m1, m, r, k, ev, tail);
    DecodeEncodedEntry(key, val, s, q, m1, m);
  }

  /** The dictionary reading from `q` reads back the entry encodings held in s[q..r], then the 'e' at `r`. */
  lemma {:induction false} DecodeEncodedEntries(entries: seq<(seq<byte>, Value)>, s: seq<byte>, q: nat, r: nat,
                                                 acc: seq<(seq<byte>, Value)>)
    requires q <= r < |s| && EncodableEntries(entries) && EncodeEntries(entries) == Some(s[q..r]) && s[r] == LOWER_E
    ensures ParseEntries(s, q, acc) == Ok((acc + entries, r + 1))
    decreases entries, 2
  {
    if entries == [] {
      assert acc + entries == acc;
    } else {
      var m := DecodeEncodedFirstEntry(entries, s, q, r);
      DecodeEncodedEntries(entries[1..], s, m, r, acc + [entries[0]]);
      EntriesStep(s, q, acc, entries[0], m);
      assert acc + [entries[0]] + entries[1..] == acc + entries;
    }
  }

  /**
   * The round trip promised for encode_decode: an encodable value's encoding
   * decodes to the value, and find_value_length measures all of it.
   */
  lemma DecodeOfEncode(v: Value)
    requires Encodable(v)
    ensures Encode(v).Some?
    ensures Parse(Encode(v).value, 0) == Ok((v, |Encode(v).value|))
    ensures ValueOf(Parse(Encode(v).value, 0)) == Ok(v)
    ensures ValueLength(Encode(v).value, 0) == |Encode(v).value|
  {
    EncodableIsNonEmpty(v);
    var e := Encode(v).value;
    assert e[0..|e|] == e;
    DecodeEncoded(v, e, 0, |e|);
    ParseConsumesValueLength(e, 0);
  }

  /** "i-42e" (bytes 105, 45, 52, 50, 101) decodes to -42, and
      find_value_length measures all five bytes. */
  lemma NegativeIntegerExample()
    ensures ValueOf(Parse([105, 45, 52, 50, 101], 0)) == Ok(Int(-42))
    ensures ValueLength([105, 45, 52, 50, 101], 0) == 5
  {
    assert Tens(42) == 4 by {
      TensBounds(42);
    }
    assert Decimal(42) == [52, 50];
    assert SignedDecimal(-42) == [45, 52, 50];
    assert BencodeInteger(-42) == [105] + [45, 52, 50] + [101] == [105, 45, 52, 50, 101];
    DecodeOfEncode(Int(-42));
  }

  /** Distinct encodable values have distinct encodings. */
  lemma EncodeInjective(v: Value, w: Value)
    requires Encodable(v) && Encodable(w) && Encode(v) == Encode(w)
    ensures v == w
  {
    DecodeOfEncode(v);
    DecodeOfEncode(w);
  }

  // ---------------------------------------------------------------------------
  // Encoding a decoding

  /**
   * The text at `pos` is written canonically: a string's length prefix is the
   * plain decimal of its length and is followed by the colon, an integer's
   * digits are exactly what "%" PRId64 would print for the value atoll reads,
   * dictionary keys contain no NUL byte, and the same holds inside lists and
   * dictionaries.
   */
  predicate Canonical(s: seq<byte>, pos: nat)
    decreases Rest(s, pos), 0
  {
    var c := At(s, pos);
    if IsDigit(c) then
      var D := Decimal(LeadingNumber(s, pos));
      pos + |D| <= |s| && s[pos..pos + |D|] == D && At(s, pos + |D|) == COLON
    else if c == LOWER_I then
      match StrChr(s, pos, LOWER_E)
      case None => false
      case Some(e) => s[pos + 1 .. e] == SignedDecimal(CAtoll(s[pos + 1 .. e]))
    else if c == LOWER_L then CanonicalItems(s, pos + 1)
    else if c == LOWER_D then CanonicalEntries(s, pos + 1)
    else false
  }

  predicate CanonicalItems(s: seq<byte>, q: nat)
    decreases Rest(s, q), 1
  {
    if At(s, q) == LOWER_E then true
    else
      match Parse(s, q)
      case Err(_) => false
      case Ok((_, next)) => Canonical(s, q) && CanonicalItems(s, next)
  }

  predicate CanonicalEntries(s: seq<byte>, q: nat)
    decreases Rest(s, q), 2
  {
    if At(s, q) == LOWER_E then true
    else
      match Parse(s, q)
      case Err(_) => false
      case Ok((key, mid)) =>
        key.Str? && NulFree(key.bytes) && Canonical(s, q) &&
        match Parse(s, mid)
        case Err(_) => false
        case Ok((_, next)) => Canonical(s, mid) && CanonicalEntries(s, next)
  }

  /** The accumulator of the list reading only prefixes its result. */
  lemma {:induction false} ParseItemsAcc(s: seq<byte>, q: nat, acc: seq<Value>)
    ensures ParseItems(s, q, acc).Ok? <==> ParseItems(s, q, []).Ok?
    ensures ParseItems(s, q, acc).Ok? ==>
              ParseItems(s, q, acc).value == (acc + ParseItems(s, q, []).value.0, ParseItems(s, q, []).value.1)
    decreases Rest(s, q)
  {
    if At(s, q) == LOWER_E {
      assert acc + [] == acc;
    } else if Parse(s, q).Ok? {
      var (v, next) := Parse(s, q).value;
      ItemsStep(s, q, acc, v, next);
      ItemsStep(s, q, [], v, next);
      assert [] + [v] == [v];
      ParseItemsAcc(s, next, acc + [v]);
      ParseItemsAcc(s, next, [v]);
      if ParseItems(s, next, []).Ok? {
        var r := ParseItems(s, next, []).value.0;
        assert acc + [v] + r == acc + ([v] + r);
      }
    }
  }

  /** The accumulator of the dictionary reading only prefixes its result. */
  lemma {:induction false} ParseEntriesAcc(s: seq<byte>, q: nat, acc: seq<(seq<byte>, Value)>)
    ensures ParseEntries(s, q, acc).Ok? <==> ParseEntries(s, q, []).Ok?
    ensures ParseEntries(s, q, acc).Ok? ==>
              ParseEntries(s, q, acc).value == (acc + ParseEntries(s, q, []).value.0, ParseEntries(s, q, []).value.1)
    decreases Rest(s, q)
  {
    if At(s, q) == LOWER_E {
      assert acc + [] == acc;
    } else if ParseEntry(s, q).Ok? {
      var (entry, next) := ParseEntry(s, q).value;
      EntriesStep(s, q, acc, entry, next);
      EntriesStep(s, q, [], entry, next);
      assert [] + [entry] == [entry];
      ParseEntriesAcc(s, next, acc + [entry]);
      ParseEntriesAcc(s, next, [entry]);
      if ParseEntries(s, next, []).Ok? {
        var r := ParseEntries(s, next, []).value.0;
        assert acc + [entry] + r == acc + ([entry] + r);
      }
    }
  }

  /** bencode_string of a canonically written string's decoding is that text. */
  lemma EncodeDecodedString(s: seq<byte>, pos: nat, v: Value, end: nat)
    requires IsDigit(At(s, pos)) && Parse(s, pos) == Ok((v, end)) && Canonical(s, pos) && Encodable(v)
    ensures Encode(v) == Some(s[pos..end])
  {
    var n := LeadingNumber(s, pos);
    var colon := pos + |Decimal(n)|;
    CanonicalPrefix(s, pos, n, colon);
    LengthPrefixRead(s, pos, colon, n);
    StringRead(s, pos, n, colon, end);
    CStrOfNulFree(v.bytes);
    StringLayout(s, pos, colon, end, Decimal(n));
  }

  /** A canonical length prefix is Decimal of the length, then the colon. */
  lemma CanonicalPrefix(s: seq<byte>, pos: nat, n: nat, colon: nat)
    requires IsDigit(At(s, pos)) && Canonical(s, pos)
    requires n == LeadingNumber(s, pos) && colon == pos + |Decimal(n)|
    ensures colon < |s| && s[pos..colon] == Decimal(n) && s[colon] == COLON
  {
  }

  /** A length prefix, its colon and the bytes after it, laid end to end. */
  lemma StringLayout(s: seq<byte>, i: nat, m: nat, j: nat, D: seq<byte>)
    requires i <= m < j <= |s| && s[i..m] == D && s[m] == COLON
    ensures s[i..j] == D + [COLON] + s[m + 1 .. j]
  {
    Join3(s, i, m, m + 1, j);
    assert s[m..m + 1] == [COLON];
  }

  /** bencode_integer of a canonically written integer's decoding is that text. */
  lemma EncodeDecodedInteger(s: seq<byte>, pos: nat, v: Value, end: nat)
    requires At(s, pos) == LOWER_I && Parse(s, pos) == Ok((v, end)) && Canonical(s, pos)
    ensures Encode(v) == Some(s[pos..end])
  {
    var e := StrChr(s, pos, LOWER_E).value;
    assert v == Int(CAtoll(s[pos + 1 .. e])) && end == e + 1;
    Frame(s, pos, end);
  }

  /** encode_decode of a canonically written text's decoding is that text. */
  lemma {:induction false} EncodeDecoded(s: seq<byte>, pos: nat, v: Value, end: nat)
    requires Parse(s, pos) == Ok((v, end)) && Canonical(s, pos) && Encodable(v)
    ensures Encode(v) == Some(s[pos..end])
    decreases Rest(s, pos), 0
  {
    var c := At(s, pos);
    if IsDigit(c) {
      EncodeDecodedString(s, pos, v, end);
    } else if c == LOWER_I {
      EncodeDecodedInteger(s, pos, v, end);
    } else if c == LOWER_L {
      assert ParseItems(s, pos + 1, []) == Ok((v.items, end));
      EncodeDecodedItems(s, pos + 1, v.items, end);
      Frame(s, pos, end);
    } else {
      assert ParseEntries(s, pos + 1, []) == Ok((v.entries, end));
      EncodeDecodedEntries(s, pos + 1, v.entries, end);
      Frame(s, pos, end);
    }
  }

  lemma {:induction false} EncodeDecodedItems(s: seq<byte>, q: nat, items: seq<Value>, end: nat)
    requires ParseItems(s, q, []) == Ok((items, end)) && CanonicalItems(s, q) && EncodableItems(items)
    ensures q < end && s[end - 1] == LOWER_E
    ensures EncodeItems(items) == Some(s[q .. end - 1])
    decreases Rest(s, q), 1
  {
    if At(s, q) != LOWER_E {
      var (v, next) := Parse(s, q).value;
      ItemsStep(s, q, [], v, next);
      assert [] + [v] == [v];
      ParseItemsAcc(s, next, [v]);
      var more := ParseItems(s, next, []).value.0;
      assert items == [v] + more;
      assert items[0] == v && items[1..] == more;
      EncodeDecoded(s, q, v, next);
      EncodeDecodedItems(s, next, more, end);
      Join(s, q, next, end - 1);
      assert EncodeItems(items) == Cat(Encode(v), EncodeItems(more));
    } else {
      assert items == [] && end == q + 1;
      assert s[q .. end - 1] == [];
    }
  }

  /** The encoding of a non-empty entry sequence: its first entry's, then the rest's. */
  lemma EncodeEntriesCons(entries: seq<(seq<byte>, Value)>, a: seq<byte>, b: seq<byte>)
    requires entries != []
    requires Encode(entries[0].1).Some? && BencodeString(entries[0].0) + Encode(entries[0].1).value == a
    requires EncodeEntries(entries[1..]) == Some(b)
    ensures EncodeEntries(entries) == Some(a + b)
  {
  }

  /** The first entry's text followed by the rest's is the whole body's. */
  lemma EncodeEntriesJoin(s: seq<byte>, q: nat, next: nat, end: nat, entries: seq<(seq<byte>, Value)>)
    requires q < next < end <= |s| && entries != []
    requires Encode(entries[0].1).Some? && BencodeString(entries[0].0) + Encode(entries[0].1).value == s[q..next]
    requires EncodeEntries(entries[1..]) == Some(s[next .. end - 1])
    ensures EncodeEntries(entries) == Some(s[q .. end - 1])
  {
    Join(s, q, next, end - 1);
    EncodeEntriesCons(entries, s[q..next], s[next .. end - 1]);
  }

  /** A canonically written entry re-encodes to its own text. */
  lemma {:induction false} EncodeDecodedEntry(s: seq<byte>, q: nat, key: Value, mid: nat, val: Value, next: nat)
    requires Parse(s, q) == Ok((key, mid)) && key.Str? && NulFree(key.bytes) && Canonical(s, q)
    requires Parse(s, mid) == Ok((val, next)) && Canonical(s, mid) && Encodable(val)
    ensures Encode(val).Some?
    ensures BencodeString(CStr(key.bytes)) + Encode(val).value == s[q..next]
    decreases Rest(s, q), 1
  {
    CStrOfNulFree(key.bytes);
    EncodeDecoded(s, q, key, mid);
    EncodeDecoded(s, mid, val, next);
    Join(s, q, mid, next);
  }

  /** The first entry of a canonically written dictionary body, and what follows it. */
  lemma {:induction false} EncodeDecodedFirstEntry(s: seq<byte>, q: nat, entries: seq<(seq<byte>, Value)>, end: nat)
    returns (next: nat, more: seq<(seq<byte>, Value)>)
    requires ParseEntries(s, q, []) == Ok((entries, end)) && CanonicalEntries(s, q) && EncodableEntries(entries)
    requires At(s, q) != LOWER_E
    ensures q < next < end && entries != [] && entries[1..] == more
    ensures ParseEntries(s, next, []) == Ok((more, end)) && CanonicalEntries(s, next) && EncodableEntries(more)
    ensures Encode(entries[0].1).Some? && BencodeString(entries[0].0) + Encode(entries[0].1).value == s[q..next]
    decreases Rest(s, q), 2
  {
    var (key, mid) := Parse(s, q).value;
    var val;
    val, next := Parse(s, mid).value.0, Parse(s, mid).value.1;
    var entry := (CStr(key.bytes), val);
    EntryRead(s, q, key, mid, val, next);
    EntriesStep(s, q, [], entry, next);
    assert [] + [entry] == [entry];
    ParseEntriesAcc(s, next, [entry]);
    more := ParseEntries(s, next, []).value.0;
    assert entries == [entry] + more;
    assert entries[0] == entry && entries[1..] == more;
    EncodeDecodedEntry(s, q, key, mid, val, next);
  }

  lemma {:induction false} EncodeDecodedEntries(s: seq<byte>, q: nat, entries: seq<(seq<byte>, Value)>, end: nat)
    requires ParseEntries(s, q, []) == Ok((entries, end)) && CanonicalEntries(s, q) && EncodableEntries(entries)
    ensures q < end && s[end - 1] == LOWER_E
    ensures EncodeEntries(entries) == Some(s[q .. end - 1])
    decreases Rest(s, q), 3
  {
    if At(s, q) != LOWER_E {
      var next, more := EncodeDecodedFirstEntry(s, q, entries, end);
      EncodeDecodedEntries(s, next, more, end);
      EncodeEntriesJoin(s, q, next, end, entries);
    } else {
      assert entries == [] && end == q + 1;
      assert s[q .. end - 1] == [];
    }
  }

  /**
   * The round trip that makes re-hashing a decoded dictionary meaningful: a
   * buffer holding exactly one canonically written, encodable value is
   * reproduced byte for byte by encoding its decoding.
   */
  lemma EncodeOfDecode(s: seq<byte>, v: Value)
    requires Parse(s, 0) == Ok((v, |s|)) && Canonical(s, 0) && Encodable(v)
    ensures Encode(v) == Some(s)
  {
    EncodeDecoded(s, 0, v, |s|);
    assert s[0..|s|] == s;
  }
}
