/**
 * The bencode encoder of src/bencode.c (encode_decode and its helpers), which
 * turns a decoded value back into bencoding.  Dictionary entries are written
 * in their stored order; nothing is sorted.  An empty list or dictionary has
 * no encoding (the C functions return NULL), and neither has any value that
 * contains one.
 */
module Encoder {
  import opened Wrappers
  import opened CText
  import opened Decode

  /** bencode_string: "%zu:%s" of a C string, i.e. strlen's count, a colon,
      and the bytes before the first NUL. */
  function BencodeString(d: seq<byte>): seq<byte>
  {
    Decimal(|CStr(d)|) + [COLON] + CStr(d)
  }

  /** The encoding of a string: the digits of its strlen count, the colon, and
      the bytes before its first NUL (all of them when it has none). */
  lemma BencodeStringLayout(d: seq<byte>)
    ensures var r, n := BencodeString(d), |Decimal(|CStr(d)|)|;
      && |r| == n + 1 + |CStr(d)|
      && r[..n] == Decimal(|CStr(d)|) && r[n] == COLON && r[n + 1 ..] == CStr(d)
      && (NulFree(d) ==> r[n + 1 ..] == d)
  {
    var D, c := Decimal(|CStr(d)|), CStr(d);
    var r := D + [COLON] + c;
    assert r[..|D|] == D;
    assert r[|D|] == COLON;
    assert r[|D| + 1 ..] == c;
    if NulFree(d) {
      CStrOfNulFree(d);
    }
  }

  /** bencode_integer: "i%" PRId64 "e", the sign kept. */
  function BencodeInteger(n: int): seq<byte>
  {
    [LOWER_I] + SignedDecimal(n) + [LOWER_E]
  }

  /** The encoding of an integer: 'i', its signed decimal, 'e', with no 'e'
      in between. */
  lemma BencodeIntegerLayout(n: int)
    ensures var r := BencodeInteger(n);
      && 3 <= |r| && r[0] == LOWER_I && r[|r| - 1] == LOWER_E
      && r[1 .. |r| - 1] == SignedDecimal(n)
      && forall k | 1 <= k < |r| - 1 :: r[k] != LOWER_E
  {
    var r := BencodeInteger(n);
    assert r[1 .. |r| - 1] == SignedDecimal(n);
    assert forall k | 1 <= k < |r| - 1 :: r[k] == SignedDecimal(n)[k - 1];
  }

  /** Concatenation of two pieces of output, either of which may be NULL. */
  function Cat(a: Option<seq<byte>>, b: Option<seq<byte>>): Option<seq<byte>>
  {
    if a.Some? && b.Some? then Some(a.value + b.value) else None
  }

  lemma CatAssoc(a: Option<seq<byte>>, b: Option<seq<byte>>, c: Option<seq<byte>>)
    ensures Cat(Cat(a, b), c) == Cat(a, Cat(b, c))
  {
    if a.Some? && b.Some? && c.Some? {
      assert (a.value + b.value) + c.value == a.value + (b.value + c.value);
    }
  }

  /** Appending one element appends its encoding. */
  lemma EncodeItemsSnoc(xs: seq<Value>, x: Value)
    ensures EncodeItems(xs + [x]) == Cat(EncodeItems(xs), Encode(x))
  {
    EncodeItemsAppend(xs, [x]);
    assert [x][1..] == [];
    CatUnit(Encode(x));
  }

  /** One element without an encoding leaves the whole list without one. */
  lemma {:induction false} EncodeItemsNone(xs: seq<Value>, i: nat)
    requires i < |xs| && Encode(xs[i]).None?
    ensures EncodeItems(xs) == None
    decreases i
  {
    if i > 0 {
      assert xs[1..][i - 1] == xs[i];
      EncodeItemsNone(xs[1..], i - 1);
    }
  }

  /** Appending one entry appends its key's and its value's encodings. */
  lemma EncodeEntriesSnoc(es: seq<(seq<byte>, Value)>, e: (seq<byte>, Value))
    ensures EncodeEntries(es + [e]) == Cat(EncodeEntries(es), Cat(Some(BencodeString(e.0)), Encode(e.1)))
  {
    EncodeEntriesAppend(es, [e]);
    assert [e][1..] == [];
    CatUnit(Cat(Some(BencodeString(e.0)), Encode(e.1)));
  }

  /** One value without an encoding leaves the whole dictionary without one. */
  lemma {:induction false} EncodeEntriesNone(es: seq<(seq<byte>, Value)>, i: nat)
    requires i < |es| && Encode(es[i].1).None?
    ensures EncodeEntries(es) == None
    decreases i
  {
    if i > 0 {
      assert es[1..][i - 1] == es[i];
      EncodeEntriesNone(es[1..], i - 1);
    }
  }

  lemma CatUnit(a: Option<seq<byte>>)
    ensures Cat(Some([]), a) == a && Cat(a, Some([])) == a
  {
    if a.Some? {
      assert [] + a.value == a.value && a.value + [] == a.value;
    }
  }

  /** encode_decode: the bencoding of a value, None where C returns NULL. */
  function Encode(v: Value): Option<seq<byte>>
    decreases v
  {
    match v
    case Str(d) => Some(BencodeString(d))
    case Int(n) => Some(BencodeInteger(n))
    case List(items) =>
      if |items| == 0 then None
      else Cat(Cat(Some([LOWER_L]), EncodeItems(items)), Some([LOWER_E]))
    case Dict(entries) =>
      if |entries| == 0 then None
      else Cat(Cat(Some([LOWER_D]), EncodeEntries(entries)), Some([LOWER_E]))
  }

  /** The element encodings of a list, concatenated in order. */
  function EncodeItems(items: seq<Value>): Option<seq<byte>>
    decreases items
  {
    if items == [] then Some([])
    else Cat(Encode(items[0]), EncodeItems(items[1..]))
  }

  /** Each entry's key as a byte string followed by its value, in stored order. */
  function EncodeEntries(entries: seq<(seq<byte>, Value)>): Option<seq<byte>>
    decreases entries
  {
    if entries == [] then Some([])
    else
      assert entries[0].1 < entries[0];
      Cat(Cat(Some(BencodeString(entries[0].0)), Encode(entries[0].1)), EncodeEntries(entries[1..]))
  }

  lemma {:induction false} EncodeItemsAppend(xs: seq<Value>, ys: seq<Value>)
    ensures EncodeItems(xs + ys) == Cat(EncodeItems(xs), EncodeItems(ys))
  {
    if xs == [] {
      assert xs + ys == ys;
      CatUnit(EncodeItems(ys));
    } else {
      assert (xs + ys)[1..] == xs[1..] + ys;
      EncodeItemsAppend(xs[1..], ys);
      CatAssoc(Encode(xs[0]), EncodeItems(xs[1..]), EncodeItems(ys));
    }
  }

  lemma {:induction false} EncodeEntriesAppend(xs: seq<(seq<byte>, Value)>, ys: seq<(seq<byte>, Value)>)
    ensures EncodeEntries(xs + ys) == Cat(EncodeEntries(xs), EncodeEntries(ys))
  {
    if xs == [] {
      assert xs + ys == ys;
      CatUnit(EncodeEntries(ys));
    } else {
      assert (xs + ys)[1..] == xs[1..] + ys;
      EncodeEntriesAppend(xs[1..], ys);
      CatAssoc(Cat(Some(BencodeString(xs[0].0)), Encode(xs[0].1)), EncodeEntries(xs[1..]), EncodeEntries(ys));
    }
  }

  // ---------------------------------------------------------------------
  // The blocks bencode_string and bencode_integer allocate for sprintf

  /** bencode_string's malloc size as written: the digits of the count, the
      string, and one more byte; the colon is not counted. */
  function StringAllocationAsWritten(d: seq<byte>): nat
  {
    |Decimal(|CStr(d)|)| + |CStr(d)| + 1
  }

  /** bencode_integer's malloc size as written: the digits and sign, and two
      more bytes for the 'i' and the 'e'; the terminator is not counted. */
  function IntegerAllocationAsWritten(n: int): nat
  {
    |SignedDecimal(n)| + 2
  }

  /** The size each block needs: the digits, the colon, the string, the NUL. */
  function StringAllocation(d: seq<byte>): nat
  {
    |Decimal(|CStr(d)|)| + 1 + |CStr(d)| + 1
  }

  /** The size each block needs: 'i', the digits and sign, 'e', the NUL. */
  function IntegerAllocation(n: int): nat
  {
    1 + |SignedDecimal(n)| + 1 + 1
  }

  /** sprintf writes the encoding and its NUL: one byte more than
      bencode_string allocates, for every string. */
  lemma StringAllocationOverrun(d: seq<byte>)
    ensures |BencodeString(d)| + 1 == StringAllocationAsWritten(d) + 1
  {
  }

  /** The same one-byte overrun in bencode_integer, for every integer. */
  lemma IntegerAllocationOverrun(n: int)
    ensures |BencodeInteger(n)| + 1 == IntegerAllocationAsWritten(n) + 1
  {
  }

  /** The smallest cases: "0:" and its NUL need 3 bytes of a 2-byte block,
      "i0e" and its NUL 4 bytes of a 3-byte block. */
  lemma AllocationOverrunExamples()
    ensures BencodeString([]) == [ZERO, COLON] && StringAllocationAsWritten([]) == 2
    ensures BencodeInteger(0) == [LOWER_I, ZERO, LOWER_E] && IntegerAllocationAsWritten(0) == 3
  {
    assert Decimal(0) == [ZERO];
  }

  /** With the corrected sizes, the encoding and its NUL fill the block exactly. */
  lemma AllocationsFit(d: seq<byte>, n: int)
    ensures |BencodeString(d)| + 1 == StringAllocation(d)
    ensures |BencodeInteger(n)| + 1 == IntegerAllocation(n)
  {
  }

  /** encode_decode: dispatch on the type of the value. */
  method EncodeDecode(v: Value) returns (r: Option<seq<byte>>)
    ensures r == Encode(v)
    decreases v, 1
  {
    match v
    case Str(d) => r := Some(BencodeString(d));
    case Int(n) => r := Some(BencodeInteger(n));
    case List(_) => r := BencodeList(v);
    case Dict(_) => r := BencodeDict(v);
  }

  /**
   * bencode_list: the element encodings are appended one by one to a growing
   * buffer whose recorded size is 2 (for 'l' and 'e') plus what it holds; the
   * result is "l" ++ body ++ "e".
   */
  method BencodeList(list: Value) returns (r: Option<seq<byte>>)
    requires list.List?
    ensures r == Encode(list)
    decreases list, 0
  {
    var items := list.items;
    if |items| == 0 {
      return None;
    }
    var value: seq<byte> := [];
    var valueSize: nat := 2;
    for i := 0 to |items|
      invariant EncodeItems(items[..i]) == Some(value)
      invariant valueSize == 2 + |value|
    {
      var temp := EncodeDecode(items[i]);
      if temp.None? {
        EncodeItemsNone(items, i);
        return None;
      }
      assert items[..i + 1] == items[..i] + [items[i]];
      EncodeItemsSnoc(items[..i], items[i]);
      value := value + temp.value;
      valueSize := valueSize + |temp.value|;
    }
    assert items[..|items|] == items;
    return Some([LOWER_L] + value + [LOWER_E]);
  }

  /** One turn of bencode_dict's loop appends the key's and the value's encodings. */
  lemma DictStep(entries: seq<(seq<byte>, Value)>, i: nat, value: seq<byte>, encoded: seq<byte>)
    requires i < |entries| && EncodeEntries(entries[..i]) == Some(value)
    requires Encode(entries[i].1) == Some(encoded)
    ensures EncodeEntries(entries[..i + 1]) == Some(value + BencodeString(entries[i].0) + encoded)
  {
    assert entries[..i + 1] == entries[..i] + [entries[i]];
    EncodeEntriesSnoc(entries[..i], entries[i]);
    assert value + BencodeString(entries[i].0) + encoded == value + (BencodeString(entries[i].0) + encoded);
  }

  /**
   * bencode_dict: for each entry in stored order, bencode_string of the key and
   * the encoding of the value are appended; the result is "d" ++ body ++ "e".
   */
  method BencodeDict(dict: Value) returns (r: Option<seq<byte>>)
    requires dict.Dict?
    ensures r == Encode(dict)
    decreases dict, 0
  {
    var entries := dict.entries;
    if |entries| == 0 {
      return None;
    }
    var value: seq<byte> := [];
    var valueSize: nat := 2;
    for i := 0 to |entries|
      invariant EncodeEntries(entries[..i]) == Some(value)
      invariant valueSize == 2 + |value|
    {
      var temp1 := BencodeString(entries[i].0);
      assert entries[i].1 < entries[i];
      var temp2 := EncodeDecode(entries[i].1);
      if temp2.None? {
        EncodeEntriesNone(entries, i);
        return None;
      }
      DictStep(entries, i, value, temp2.value);
      value := value + temp1 + temp2.value;
      valueSize := valueSize + |temp1| + |temp2.value|;
    }
    assert entries[..|entries|] == entries;
    return Some([LOWER_D] + value + [LOWER_E]);
  }
}
