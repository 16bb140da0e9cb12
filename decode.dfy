/**
 * The bencode decoder of src/decode.c (bencoding as in BEP 3).
 *
 * `Parse` is the reference reading of a value: it returns the value together
 * with the position just past it.  The C decoder does not return that
 * position; its list and dictionary loops call find_value_length to move the
 * cursor instead.  `ValueLength` (with the loop method `FindValueLength`)
 * models that function, `ParseConsumesValueLength` proves that it measures
 * exactly what the reference reading consumes, and the methods `DecodeList`,
 * `DecodeDict` and `DecodeBencode`, shaped like the C loops, are proved to
 * decode exactly what `Parse` reads.
 */
module Decode {
  import opened Wrappers
  import opened CText

  /** DecodedValue: a byte string, an integer, a list, or a dictionary kept as
      the ordered sequence of its key/value pairs (never sorted, duplicates kept). */
  datatype Value =
    | Str(bytes: seq<byte>)
    | Int(n: int)
    | List(items: seq<Value>)
    | Dict(entries: seq<(seq<byte>, Value)>)

  /** The conditions on which the C decoder gives up (it prints and exits). */
  datatype Error =
    | InvalidStringFormat   // decode_string: the first byte is not a digit
    | MissingColon          // decode_string: no ':' before the terminator
    | StringOverrun         // decode_string: the length runs past the buffer
    | InvalidIntegerFormat  // decode_integer: no 'e' before the terminator
    | InvalidListFormat     // decode_list: the first byte is not 'l'
    | InvalidDictFormat     // decode_dict: the first byte is not 'd'
    | NonStringKey          // decode_dict: a key that is not a byte string
    | UnsupportedValue      // decode_bencode: any other leading byte

  // ---------------------------------------------------------------------
  // find_value_length

  /**
   * find_value_length(s + pos): the number of bytes the value at `pos`
   * occupies, 0 when it cannot be measured.  An integer reaches the first 'e';
   * a string is its length prefix, the colon and the prefixed length; a list or
   * dictionary is measured by ItemsLength.
   */
  function ValueLength(s: seq<byte>, pos: nat): (n: nat)
    ensures n > 0 ==> pos < |s|
    decreases Rest(s, pos), 0
  {
    var c := At(s, pos);
    if c == LOWER_I then
      match StrChr(s, pos, LOWER_E)
      case Some(e) => e - pos + 1
      case None => 0
    else if IsDigit(c) then
      match StrChr(s, pos, COLON)
      case Some(colon) => (colon - pos + 1) + LeadingNumber(s, pos)
      case None => 0
    else if c == LOWER_L || c == LOWER_D then
      ItemsLength(s, pos, pos + 1)
    else
      0
  }

  /**
   * The loop of find_value_length for the list or dictionary at `pos`, with its
   * cursor at `q`: the lengths of the elements are added up to the 'e', and
   * the whole is 0 as soon as one element measures 0.
   */
  function ItemsLength(s: seq<byte>, pos: nat, q: nat): nat
    requires pos < q
    decreases Rest(s, q), 1
  {
    if At(s, q) == LOWER_E then q - pos + 1
    else
      var n := ValueLength(s, q);
      if n == 0 then 0 else ItemsLength(s, pos, q + n)
  }

  /** find_value_length as the source writes it: a recursive scan whose list
      and dictionary case advances a cursor in a loop. */
  method FindValueLength(s: seq<byte>, pos: nat) returns (n: nat)
    ensures n == ValueLength(s, pos)
    decreases Rest(s, pos)
  {
    var c := At(s, pos);
    if c == LOWER_I {
      var e := StrChr(s, pos, LOWER_E);
      if e.Some? {
        return e.value - pos + 1;
      }
    } else if IsDigit(c) {
      var colon := StrChr(s, pos, COLON);
      if colon.Some? {
        var length := LeadingNumber(s, pos);
        return (colon.value - pos + 1) + length;
      }
    } else if c == LOWER_L || c == LOWER_D {
      var i: nat := 1;
      while At(s, pos + i) != LOWER_E
        invariant 1 <= i
        invariant ItemsLength(s, pos, pos + i) == ItemsLength(s, pos, pos + 1)
        decreases Rest(s, pos + i)
      {
        var valueLength := FindValueLength(s, pos + i);
        if valueLength == 0 {
          return 0;
        }
        i := i + valueLength;
      }
      return i + 1;
    }
    return 0;
  }

  // ---------------------------------------------------------------------
  // decode_string and decode_integer

  /**
   * decode_string(s + pos): the length is atoi of the digits at `pos`, the
   * bytes are copied (binary-safe) from just after the first ':'.
   */
  function DecodeString(s: seq<byte>, pos: nat): (r: Result<Value, Error>)
    ensures r.Ok? <==> IsDigit(At(s, pos)) && StrChr(s, pos, COLON).Some?
                       && StrChr(s, pos, COLON).value + 1 + LeadingNumber(s, pos) <= |s|
    ensures r.Ok? ==> r.value.Str? && |r.value.bytes| == LeadingNumber(s, pos)
  {
    if !IsDigit(At(s, pos)) then Err(InvalidStringFormat)
    else
      var length := LeadingNumber(s, pos);
      match StrChr(s, pos, COLON)
      case None => Err(MissingColon)
      case Some(colon) =>
        if colon + 1 + length > |s| then Err(StringOverrun)
        else Ok(Str(s[colon + 1 .. colon + 1 + length]))
  }

  /** What decode_string copies, and which failure each malformed prefix gives.
      These facts follow from the definition alone; they are kept out of
      DecodeString's own contract so that the many proofs unfolding it do not
      carry them. */
  lemma DecodeStringOutcome(s: seq<byte>, pos: nat)
    ensures var r := DecodeString(s, pos);
      && (r.Ok? ==> r.value.bytes == s[StrChr(s, pos, COLON).value + 1 ..][..LeadingNumber(s, pos)])
      && (!IsDigit(At(s, pos)) ==> r == Err(InvalidStringFormat))
      && (IsDigit(At(s, pos)) && StrChr(s, pos, COLON).None? ==> r == Err(MissingColon))
      && (r.Err? && r.error != InvalidStringFormat && r.error != MissingColon ==> r == Err(StringOverrun))
  {
  }

  /**
   * decode_integer(s + pos), called on an 'i': the text between the 'i' and
   * the end that find_value_length reports is read by atoll.
   */
  function DecodeInteger(s: seq<byte>, pos: nat): (r: Result<Value, Error>)
    requires At(s, pos) == LOWER_I
    ensures r.Ok? <==> StrChr(s, pos, LOWER_E).Some?
    ensures r.Ok? ==> r.value == Int(CAtoll(s[pos + 1 .. StrChr(s, pos, LOWER_E).value]))
  {
    var valueLength := ValueLength(s, pos);
    if valueLength == 0 then Err(InvalidIntegerFormat)
    else Ok(Int(CAtoll(s[pos + 1 .. pos + valueLength - 1])))
  }

  // ---------------------------------------------------------------------
  // The reference reading

  /** The value at `pos` and the position just past it. */
  function Parse(s: seq<byte>, pos: nat): (r: Result<(Value, nat), Error>)
    ensures r.Ok? ==> pos < r.value.1 <= |s|
    decreases Rest(s, pos), 0
  {
    var c := At(s, pos);
    if IsDigit(c) then
      match DecodeString(s, pos)
      case Err(e) => Err(e)
      case Ok(v) => Ok((v, StrChr(s, pos, COLON).value + 1 + LeadingNumber(s, pos)))
    else if c == LOWER_I then
      match DecodeInteger(s, pos)
      case Err(e) => Err(e)
      case Ok(v) => Ok((v, StrChr(s, pos, LOWER_E).value + 1))
    else if c == LOWER_L then
      match ParseItems(s, pos + 1, [])
      case Err(e) => Err(e)
      case Ok((items, end)) => Ok((List(items), end))
    else if c == LOWER_D then
      match ParseEntries(s, pos + 1, [])
      case Err(e) => Err(e)
      case Ok((entries, end)) => Ok((Dict(entries), end))
    else
      Err(UnsupportedValue)
  }

  /** List elements from `q` up to the closing 'e', appended to `acc`. */
  function ParseItems(s: seq<byte>, q: nat, acc: seq<Value>): (r: Result<(seq<Value>, nat), Error>)
    ensures r.Ok? ==> q < r.value.1 <= |s|
    decreases Rest(s, q), 1
  {
    if At(s, q) == LOWER_E then Ok((acc, q + 1))
    else
      match Parse(s, q)
      case Err(e) => Err(e)
      case Ok((v, next)) => ParseItems(s, next, acc + [v])
  }

  /**
   * One dictionary entry at `q`: a key that must decode to a byte string (kept
   * up to its first NUL, as strndup copies it), then a value.
   */
  function ParseEntry(s: seq<byte>, q: nat): (r: Result<((seq<byte>, Value), nat), Error>)
    ensures r.Ok? ==> q < r.value.1 <= |s|
    decreases Rest(s, q), 1
  {
    match Parse(s, q)
    case Err(e) => Err(e)
    case Ok((key, mid)) =>
      if !key.Str? then Err(NonStringKey)
      else
        match Parse(s, mid)
        case Err(e) => Err(e)
        case Ok((v, next)) => Ok(((CStr(key.bytes), v), next))
  }

  /** Dictionary entries from `q` up to the closing 'e', appended to `acc`. */
  function ParseEntries(s: seq<byte>, q: nat, acc: seq<(seq<byte>, Value)>)
    : (r: Result<(seq<(seq<byte>, Value)>, nat), Error>)
    ensures r.Ok? ==> q < r.value.1 <= |s|
    decreases Rest(s, q), 2
  {
    if At(s, q) == LOWER_E then Ok((acc, q + 1))
    else
      match ParseEntry(s, q)
      case Err(e) => Err(e)
      case Ok((entry, next)) => ParseEntries(s, next, acc + [entry])
  }

  /** The value part of a reading. */
  function ValueOf(r: Result<(Value, nat), Error>): Result<Value, Error>
  {
    if r.Ok? then Ok(r.value.0) else Err(r.error)
  }

  // ---------------------------------------------------------------------
  // find_value_length agrees with what decoding consumes

  /** Whenever the value at `pos` can be read, find_value_length reports
      exactly the number of bytes the reading consumed. */
  lemma {:induction false} ParseConsumesValueLength(s: seq<byte>, pos: nat)
    requires Parse(s, pos).Ok?
    ensures ValueLength(s, pos) == Parse(s, pos).value.1 - pos
    decreases Rest(s, pos), 0
  {
    var c := At(s, pos);
    if c == LOWER_L {
      ItemsConsumeLength(s, pos, pos + 1, []);
    } else if c == LOWER_D {
      EntriesConsumeLength(s, pos, pos + 1, []);
    }
  }

  /** The loop measures, from the cursor `q` on, what the list reading consumes. */
  lemma {:induction false} ItemsConsumeLength(s: seq<byte>, pos: nat, q: nat, acc: seq<Value>)
    requires pos < q && ParseItems(s, q, acc).Ok?
    ensures ItemsLength(s, pos, q) == ParseItems(s, q, acc).value.1 - pos
    decreases Rest(s, q), 1
  {
    if At(s, q) != LOWER_E {
      var (v, next) := Parse(s, q).value;
      assert ParseItems(s, q, acc) == ParseItems(s, next, acc + [v]);
      ParseConsumesValueLength(s, q);
      ItemsLengthStep(s, pos, q, next);
      ItemsConsumeLength(s, pos, next, acc + [v]);
    }
  }

  /** The loop measures, from the cursor `q` on, what the dictionary reading consumes. */
  lemma {:induction false} EntriesConsumeLength(s: seq<byte>, pos: nat, q: nat, acc: seq<(seq<byte>, Value)>)
    requires pos < q && ParseEntries(s, q, acc).Ok?
    ensures ItemsLength(s, pos, q) == ParseEntries(s, q, acc).value.1 - pos
    decreases Rest(s, q), 2
  {
    if At(s, q) != LOWER_E {
      var (entry, next) := ParseEntry(s, q).value;
      assert ParseEntries(s, q, acc) == ParseEntries(s, next, acc + [entry]);
      EntryConsumesLength(s, pos, q);
      EntriesConsumeLength(s, pos, next, acc + [entry]);
    }
  }

  /** An entry is measured as its key followed by its value. */
  lemma {:induction false} EntryConsumesLength(s: seq<byte>, pos: nat, q: nat)
    requires pos < q && At(s, q) != LOWER_E && ParseEntry(s, q).Ok?
    ensures ItemsLength(s, pos, q) == ItemsLength(s, pos, ParseEntry(s, q).value.1)
    decreases Rest(s, q), 1
  {
    var (key, mid) := Parse(s, q).value;
    var (val, next) := Parse(s, mid).value;
    assert ParseEntry(s, q).value.1 == next;
    ParseConsumesValueLength(s, q);
    ItemsLengthStep(s, pos, q, mid);
    assert At(s, mid) != LOWER_E;
    ParseConsumesValueLength(s, mid);
    ItemsLengthStep(s, pos, mid, next);
  }

  /** One turn of find_value_length's loop, over an element from `q` to `next`. */
  lemma ItemsLengthStep(s: seq<byte>, pos: nat, q: nat, next: nat)
    requires pos < q < next && At(s, q) != LOWER_E
    requires ValueLength(s, q) == next - q
    ensures ItemsLength(s, pos, q) == ItemsLength(s, pos, next)
  {
  }

  // ---------------------------------------------------------------------
  // decode_list, decode_dict, decode_bencode

  /** decode_bencode(s + pos): dispatch on the first byte. */
  method DecodeBencode(s: seq<byte>, pos: nat) returns (r: Result<Value, Error>)
    ensures r == ValueOf(Parse(s, pos))
    decreases Rest(s, pos), 1
  {
    var c := At(s, pos);
    if IsDigit(c) {
      r := DecodeString(s, pos);
    } else if c == LOWER_I {
      r := DecodeInteger(s, pos);
    } else if c == LOWER_L {
      r := DecodeList(s, pos);
    } else if c == LOWER_D {
      r := DecodeDict(s, pos);
    } else {
      r := Err(UnsupportedValue);
    }
  }

  /** What decode_list returns, given what the reading of its elements returns. */
  lemma ListOutcome(s: seq<byte>, pos: nat)
    requires At(s, pos) == LOWER_L
    ensures ValueOf(Parse(s, pos)) ==
              match ParseItems(s, pos + 1, [])
              case Err(e) => Err(e)
              case Ok((items, _)) => Ok(List(items))
  {
  }

  /** What decode_dict returns, given what the reading of its entries returns. */
  lemma DictOutcome(s: seq<byte>, pos: nat)
    requires At(s, pos) == LOWER_D
    ensures ValueOf(Parse(s, pos)) ==
              match ParseEntries(s, pos + 1, [])
              case Err(e) => Err(e)
              case Ok((entries, _)) => Ok(Dict(entries))
  {
  }

  /** decode_list's loop, one element on: the element decoded at cursor
      pos + index, measured as n bytes, is appended and the cursor moves by n. */
  lemma ItemsAdvance(s: seq<byte>, pos: nat, index: nat, items: seq<Value>, v: Value, n: nat)
    requires ValueOf(Parse(s, pos + index)) == Ok(v) && ValueLength(s, pos + index) == n
    ensures n > 0 && pos + index + n <= |s|
    ensures ParseItems(s, pos + index, items) == ParseItems(s, pos + (index + n), items + [v])
  {
    ParseConsumesValueLength(s, pos + index);
  }

  /** A value that is read and measured as n bytes is read up to `end`, n bytes on. */
  lemma ReadMeasured(s: seq<byte>, q: nat, n: nat, end: nat)
    requires Parse(s, q).Ok? && ValueLength(s, q) == n && end == q + n
    ensures Parse(s, q) == Ok((Parse(s, q).value.0, end))
  {
    ParseConsumesValueLength(s, q);
  }

  /** One element read, the list reading goes on after it. */
  lemma ItemsStep(s: seq<byte>, q: nat, acc: seq<Value>, x: Value, next: nat)
    requires Parse(s, q) == Ok((x, next))
    ensures ParseItems(s, q, acc) == ParseItems(s, next, acc + [x])
  {
  }

  /** One entry read, the dictionary reading goes on after it. */
  lemma EntriesStep(s: seq<byte>, q: nat, acc: seq<(seq<byte>, Value)>, entry: (seq<byte>, Value), next: nat)
    requires ParseEntry(s, q) == Ok((entry, next))
    ensures ParseEntries(s, q, acc) == ParseEntries(s, next, acc + [entry])
  {
  }

  /** The entry read at `q`: a byte-string key up to `mid`, then a value up to `next`. */
  lemma EntryRead(s: seq<byte>, q: nat, key: Value, mid: nat, v: Value, next: nat)
    requires key.Str? && Parse(s, q) == Ok((key, mid)) && Parse(s, mid) == Ok((v, next))
    ensures ParseEntry(s, q) == Ok(((CStr(key.bytes), v), next))
  {
  }

  /** decode_dict's loop, one entry on: the entry read at cursor pos + index
      takes n bytes, is appended, and the cursor moves by n. */
  lemma EntriesAdvance(s: seq<byte>, pos: nat, index: nat, entries: seq<(seq<byte>, Value)>,
                       entry: (seq<byte>, Value), n: nat)
    requires ParseEntry(s, pos + index) == Ok((entry, pos + index + n))
    ensures n > 0 && pos + index + n <= |s|
    ensures ParseEntries(s, pos + index, entries) == ParseEntries(s, pos + (index + n), entries + [entry])
  {
  }

  /** A list element that cannot be read ends the list reading with its error. */
  lemma ItemsFail(s: seq<byte>, q: nat, items: seq<Value>)
    requires At(s, q) != LOWER_E && ValueOf(Parse(s, q)).Err?
    ensures ParseItems(s, q, items) == Err(ValueOf(Parse(s, q)).error)
  {
  }

  /** An entry that cannot be read ends the dictionary reading with its error. */
  lemma EntriesFail(s: seq<byte>, q: nat, entries: seq<(seq<byte>, Value)>)
    requires At(s, q) != LOWER_E && ParseEntry(s, q).Err?
    ensures ParseEntries(s, q, entries) == Err(ParseEntry(s, q).error)
  {
  }

  /** decode_list(s + pos): decode an element, measure it with
      find_value_length, append it, move on; stop at the 'e'. */
  method DecodeList(s: seq<byte>, pos: nat) returns (r: Result<Value, Error>)
    ensures At(s, pos) == LOWER_L ==> r == ValueOf(Parse(s, pos))
    ensures At(s, pos) != LOWER_L ==> r == Err(InvalidListFormat)
    decreases Rest(s, pos), 0
  {
    if At(s, pos) != LOWER_L {
      return Err(InvalidListFormat);
    }
    ListOutcome(s, pos);
    var items: seq<Value> := [];
    var index: nat := 1;
    while At(s, pos + index) != LOWER_E
      invariant 1 <= index && pos + index <= |s|
      invariant ParseItems(s, pos + index, items) == ParseItems(s, pos + 1, [])
      decreases Rest(s, pos + index)
    {
      var element := DecodeBencode(s, pos + index);
      if element.Err? {
        ItemsFail(s, pos + index, items);
        return Err(element.error);
      }
      var elementLength := FindValueLength(s, pos + index);
      ItemsAdvance(s, pos, index, items, element.value, elementLength);
      items := items + [element.value];
      index := index + elementLength;
    }
    return Ok(List(items));
  }

  /**
   * One turn of decode_dict's loop at cursor q: the key is decoded and must be
   * a byte string, the cursor moves past it by find_value_length, then the
   * value is decoded and measured.  The result is the entry (the key cut at
   * its first NUL, as strndup copies it) and the bytes key and value take.
   */
  method DecodeDictEntry(s: seq<byte>, q: nat) returns (r: Result<((seq<byte>, Value), nat), Error>)
    ensures r.Ok? ==> ParseEntry(s, q) == Ok((r.value.0, q + r.value.1))
    ensures r.Err? ==> ParseEntry(s, q) == Err(r.error)
    decreases Rest(s, q), 2
  {
    var keyObj := DecodeBencode(s, q);
    if keyObj.Err? {
      return Err(keyObj.error);
    }
    if !keyObj.value.Str? {
      return Err(NonStringKey);
    }
    var keyLength := FindValueLength(s, q);
    ReadMeasured(s, q, keyLength, q + keyLength);
    var value := DecodeBencode(s, q + keyLength);
    if value.Err? {
      return Err(value.error);
    }
    var valueLength := FindValueLength(s, q + keyLength);
    var length := keyLength + valueLength;
    ReadMeasured(s, q + keyLength, valueLength, q + length);
    EntryRead(s, q, keyObj.value, q + keyLength, value.value, q + length);
    return Ok(((CStr(keyObj.value.bytes), value.value), length));
  }

  /** decode_dict(s + pos): decode_list's loop over key/value pairs. */
  method DecodeDict(s: seq<byte>, pos: nat) returns (r: Result<Value, Error>)
    ensures At(s, pos) == LOWER_D ==> r == ValueOf(Parse(s, pos))
    ensures At(s, pos) != LOWER_D ==> r == Err(InvalidDictFormat)
    decreases Rest(s, pos), 0
  {
    if At(s, pos) != LOWER_D {
      return Err(InvalidDictFormat);
    }
    DictOutcome(s, pos);
    var entries: seq<(seq<byte>, Value)> := [];
    var index: nat := 1;
    while At(s, pos + index) != LOWER_E
      invariant 1 <= index && pos + index <= |s|
      invariant ParseEntries(s, pos + index, entries) == ParseEntries(s, pos + 1, [])
      decreases Rest(s, pos + index)
    {
      var entry := DecodeDictEntry(s, pos + index);
      if entry.Err? {
        EntriesFail(s, pos + index, entries);
        return Err(entry.error);
      }
      EntriesAdvance(s, pos, index, entries, entry.value.0, entry.value.1);
      entries := entries + [entry.value.0];
      index := index + entry.value.1;
    }
    return Ok(Dict(entries));
  }
}
