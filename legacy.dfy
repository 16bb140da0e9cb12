/**
 * The earlier decoder kept at the repository root (bencode.c).  It reads byte
 * strings, integers and lists but no dictionaries, and copies a string with
 * strncpy into a buffer one byte longer than its declared length, ending in
 * NUL.  Its find_value_length is the one of src/decode.c with an extra
 * counter, and its decode_integer is the same function; both are shared with
 * the module Decode.  Nothing bounds a string by the end of the input: the
 * copy stops at the input's NUL, and a list loop that lands past the end reads
 * the terminator there (`At`).
 *
 * `LParse` is the reference reading.  The methods `LDecodeBencode`,
 * `LDecodeList` and `LFindValueLength`, shaped like the C code, are proved to
 * decode what it reads, and `LegacyAgreement` relates it to the newer
 * decoder: the legacy reading stays inside the input exactly when the new one
 * reads a value without dictionaries, and then the two agree.
 */
module Legacy {
  import opened Wrappers
  import opened CText
  import opened Decode

  /** DecodedValue of bencode.h: the string case holds the whole strncpy
      buffer, the declared length plus a NUL. */
  datatype LValue =
    | LStr(buffer: seq<byte>)
    | LInt(n: int)
    | LList(items: seq<LValue>)

  // ---------------------------------------------------------------------
  // strncpy

  /** The n bytes C code sees at s + from: past the end, the terminator. */
  function Window(s: seq<byte>, from: nat, n: nat): (w: seq<byte>)
    ensures |w| == n
    decreases n
  {
    if n == 0 then [] else [At(s, from)] + Window(s, from + 1, n - 1)
  }

  /** strncpy(dst, s + from, n): copy until a NUL is met, then pad with NULs
      up to n bytes. */
  function Strncpy(s: seq<byte>, from: nat, n: nat): seq<byte>
    decreases n
  {
    if n == 0 then []
    else if At(s, from) == NUL then Zeros(n)
    else [s[from]] + Strncpy(s, from + 1, n - 1)
  }

  /** strncpy leaves the C string of the n bytes it reads, then NULs. */
  lemma {:induction false} StrncpyOfWindow(s: seq<byte>, from: nat, n: nat)
    ensures var w := Window(s, from, n);
      |CStr(w)| <= n && Strncpy(s, from, n) == CStr(w) + Zeros(n - |CStr(w)|)
    decreases n
  {
    if n > 0 && At(s, from) != NUL {
      StrncpyOfWindow(s, from + 1, n - 1);
      StrncpyStep(s, from, n);
    }
  }

  /** One byte of strncpy's copy, the rest as the induction gives it. */
  lemma StrncpyStep(s: seq<byte>, from: nat, n: nat)
    requires n > 0 && At(s, from) != NUL
    requires var w' := Window(s, from + 1, n - 1);
      Strncpy(s, from + 1, n - 1) == CStr(w') + Zeros(n - 1 - |CStr(w')|)
    ensures var w := Window(s, from, n);
      Strncpy(s, from, n) == CStr(w) + Zeros(n - |CStr(w)|)
  {
    var w' := Window(s, from + 1, n - 1);
    var c' := CStr(w');
    var w := Window(s, from, n);
    assert w[1..] == w';
    Regroup(s[from], c', Zeros(n - 1 - |c'|));
  }

  lemma Regroup(x: byte, c: seq<byte>, z: seq<byte>)
    ensures [x] + (c + z) == ([x] + c) + z
  {
  }

  /** Inside the input, the window is the slice. */
  lemma {:induction false} WindowInBounds(s: seq<byte>, from: nat, n: nat)
    requires from + n <= |s|
    ensures Window(s, from, n) == s[from .. from + n]
    decreases n
  {
    if n > 0 {
      WindowInBounds(s, from + 1, n - 1);
      assert s[from .. from + n] == [s[from]] + s[from + 1 .. from + n];
    }
  }

  /** Inside the input, strncpy reads only the n bytes at `from`. */
  lemma StrncpyInBounds(s: seq<byte>, from: nat, n: nat)
    requires from + n <= |s|
    ensures Strncpy(s, from, n) == Strncpy(s[from .. from + n], 0, n)
  {
    var t := s[from .. from + n];
    var w := Window(s, from, n);
    WindowInBounds(s, from, n);
    assert w == t;
    StrncpyOfWindow(s, from, n);
    StrncpyWhole(t);
  }

  /** strncpy of all of `b` keeps its C string and pads it with NULs. */
  lemma StrncpyWhole(b: seq<byte>)
    ensures Strncpy(b, 0, |b|) == CStr(b) + Zeros(|b| - |CStr(b)|)
  {
    var w := Window(b, 0, |b|);
    WindowInBounds(b, 0, |b|);
    assert w == b;
    StrncpyOfWindow(b, 0, |b|);
  }

  /** A copy of bytes without NUL is the bytes themselves. */
  lemma StrncpyNulFree(b: seq<byte>)
    requires NulFree(b)
    ensures Strncpy(b, 0, |b|) == b
  {
    WindowInBounds(b, 0, |b|);
    assert b[0 .. |b|] == b;
    StrncpyOfWindow(b, 0, |b|);
    CStrOfNulFree(b);
  }

  /** A C string padded with NULs to n bytes, then one more NUL: n + 1 bytes,
      the text first, NUL from there on, and the text is its C string. */
  lemma PaddedBuffer(text: seq<byte>, n: nat)
    requires NulFree(text) && |text| <= n
    ensures var buf := text + Zeros(n - |text|) + [NUL];
      && |buf| == n + 1
      && buf[n] == NUL
      && buf[..|text|] == text
      && (forall k | |text| <= k <= n :: buf[k] == NUL)
      && CStr(buf) == text
  {
    var buf := text + Zeros(n - |text|) + [NUL];
    assert buf == text + (Zeros(n - |text|) + [NUL]);
    CStrStopsAtNul(text, Zeros(n - |text|) + [NUL]);
  }

  // ---------------------------------------------------------------------
  // decode_string

  /**
   * decode_string(s + pos): the length is atoi of the digits at `pos`; a
   * buffer of length + 1 bytes gets strncpy of the bytes after the first ':'
   * and a NUL at index length.
   */
  function LDecodeString(s: seq<byte>, pos: nat): (r: Result<LValue, Error>)
    ensures r.Ok? <==> IsDigit(At(s, pos)) && StrChr(s, pos, COLON).Some?
    ensures !IsDigit(At(s, pos)) ==> r == Err(InvalidStringFormat)
  {
    if !IsDigit(At(s, pos)) then Err(InvalidStringFormat)
    else
      var length := LeadingNumber(s, pos);
      match StrChr(s, pos, COLON)
      case None => Err(MissingColon)
      case Some(colon) => Ok(LStr(Strncpy(s, colon + 1, length) + [NUL]))
  }

  /** The buffer decode_string returns: length + 1 bytes, the C string of the
      length bytes after the colon, NULs up to and including index length. */
  lemma LDecodeStringBuffer(s: seq<byte>, pos: nat)
    requires LDecodeString(s, pos).Ok?
    ensures var buf := LDecodeString(s, pos).value.buffer;
      var length := LeadingNumber(s, pos);
      var text := CStr(Window(s, StrChr(s, pos, COLON).value + 1, length));
      && |buf| == length + 1
      && buf[length] == NUL
      && buf[..|text|] == text
      && forall k | |text| <= k <= length :: buf[k] == NUL
  {
    var length := LeadingNumber(s, pos);
    var colon := StrChr(s, pos, COLON).value;
    var text := CStr(Window(s, colon + 1, length));
    assert LDecodeString(s, pos).value.buffer == Strncpy(s, colon + 1, length) + [NUL];
    StrncpyOfWindow(s, colon + 1, length);
    PaddedBuffer(text, length);
  }

  // ---------------------------------------------------------------------
  // The reference reading

  /** The value at `pos` and the position just past its encoding, which for a
      string may lie beyond the input. */
  function LParse(s: seq<byte>, pos: nat): (r: Result<(LValue, nat), Error>)
    ensures r.Ok? ==> pos < |s| && pos < r.value.1
    decreases Rest(s, pos), 0
  {
    var c := At(s, pos);
    if IsDigit(c) then
      match LDecodeString(s, pos)
      case Err(e) => Err(e)
      case Ok(v) => Ok((v, StrChr(s, pos, COLON).value + 1 + LeadingNumber(s, pos)))
    else if c == LOWER_I then
      match DecodeInteger(s, pos)
      case Err(e) => Err(e)
      case Ok(v) => Ok((LInt(v.n), StrChr(s, pos, LOWER_E).value + 1))
    else if c == LOWER_L then
      match LParseItems(s, pos + 1, [])
      case Err(e) => Err(e)
      case Ok((items, end)) => Ok((LList(items), end))
    else
      Err(UnsupportedValue)
  }

  /** List elements from `q` up to the closing 'e', appended to `acc`. */
  function LParseItems(s: seq<byte>, q: nat, acc: seq<LValue>): (r: Result<(seq<LValue>, nat), Error>)
    ensures r.Ok? ==> q < r.value.1
    decreases Rest(s, q), 1
  {
    if At(s, q) == LOWER_E then Ok((acc, q + 1))
    else
      match LParse(s, q)
      case Err(e) => Err(e)
      case Ok((v, next)) => LParseItems(s, next, acc + [v])
  }

  /** The value part of a reading. */
  function LValueOf(r: Result<(LValue, nat), Error>): Result<LValue, Error>
  {
    if r.Ok? then Ok(r.value.0) else Err(r.error)
  }

  /** Any leading byte but a digit, 'i' or 'l' is unsupported; in particular a
      dictionary, which find_value_length and the newer decoder both accept. */
  lemma LRejectsOtherBytes(s: seq<byte>, pos: nat)
    requires !IsDigit(At(s, pos)) && At(s, pos) != LOWER_I && At(s, pos) != LOWER_L
    ensures LParse(s, pos) == Err(UnsupportedValue)
    ensures At(s, pos) == LOWER_D && Parse(s, pos).Ok? ==> ValueLength(s, pos) > 0
  {
    if At(s, pos) == LOWER_D && Parse(s, pos).Ok? {
      ParseConsumesValueLength(s, pos);
    }
  }

  /** In "l5:abe" the string claims five bytes where three remain: the list
      loop's cursor jumps from 1 to 8, past the seven bytes of the buffer and
      its terminator.  The model reads a NUL there and rejects the list; the
      newer decoder already rejects the string. */
  lemma LegacyOverrunExample()
    ensures var s: seq<byte> := [108, 53, 58, 97, 98, 101];
      && ValueLength(s, 1) == 7 && 1 + ValueLength(s, 1) > |s| + 1
      && LParse(s, 0) == Err(UnsupportedValue)
      && Parse(s, 0) == Err(StringOverrun)
  {
    var s: seq<byte> := [108, 53, 58, 97, 98, 101];
    assert StrChr(s, 1, COLON) == Some(2);
    assert LeadingNumber(s, 1) == 5;
    assert LParse(s, 1) == Ok((LStr(Strncpy(s, 3, 5) + [NUL]), 8));
    assert DecodeString(s, 1) == Err(StringOverrun);
  }

  // ---------------------------------------------------------------------
  // find_value_length agrees with what decoding consumes

  /** Whenever the legacy reading succeeds, find_value_length reports exactly
      the number of bytes it consumed. */
  lemma {:induction false} LParseConsumesValueLength(s: seq<byte>, pos: nat)
    requires LParse(s, pos).Ok?
    ensures ValueLength(s, pos) == LParse(s, pos).value.1 - pos
    decreases Rest(s, pos), 0
  {
    if At(s, pos) == LOWER_L {
      LItemsConsumeLength(s, pos, pos + 1, []);
    }
  }

  /** The loop measures, from the cursor `q` on, what the list reading consumes. */
  lemma {:induction false} LItemsConsumeLength(s: seq<byte>, pos: nat, q: nat, acc: seq<LValue>)
    requires pos < q && LParseItems(s, q, acc).Ok?
    ensures ItemsLength(s, pos, q) == LParseItems(s, q, acc).value.1 - pos
    decreases Rest(s, q), 1
  {
    if At(s, q) != LOWER_E {
      var (v, next) := LParse(s, q).value;
      assert LParseItems(s, q, acc) == LParseItems(s, next, acc + [v]);
      LParseConsumesValueLength(s, q);
      ItemsLengthStep(s, pos, q, next);
      LItemsConsumeLength(s, pos, next, acc + [v]);
    }
  }

  /**
   * find_value_length with the counter `length` the legacy loop keeps beside
   * the cursor `i`; the two move together, so the result is 1, plus the
   * element lengths, plus 1.
   */
  method LFindValueLength(s: seq<byte>, pos: nat) returns (n: nat)
    ensures n == ValueLength(s, pos)
    decreases Rest(s, pos)
  {
    var c := At(s, pos);
    if c == LOWER_I {
      var e := StrChr(s, pos, LOWER_E);
      if e.Some? {
        return e.value - pos + 1;
      }
    } else if IsDigit(c) {
      var colon := StrChr(s, pos, COLON);
      if colon.Some? {
        var length := LeadingNumber(s, pos);
        return (colon.value - pos + 1) + length;
      }
    } else if c == LOWER_L || c == LOWER_D {
      var length: nat := 1;
      var i: nat := 1;
      while At(s, pos + i) != LOWER_E
        invariant 1 <= i && length == i
        invariant ItemsLength(s, pos, pos + i) == ItemsLength(s, pos, pos + 1)
        decreases Rest(s, pos + i)
      {
        var valueLength := LFindValueLength(s, pos + i);
        if valueLength == 0 {
          return 0;
        }
        i := i + valueLength;
        length := length + valueLength;
      }
      return length + 1;
    }
    return 0;
  }

  // ---------------------------------------------------------------------
  // decode_list and decode_bencode

  /** What decode_list returns, given what the reading of its elements returns. */
  lemma LListOutcome(s: seq<byte>, pos: nat)
    requires At(s, pos) == LOWER_L
    ensures LValueOf(LParse(s, pos)) ==
              match LParseItems(s, pos + 1, [])
              case Err(e) => Err(e)
              case Ok((items, _)) => Ok(LList(items))
  {
  }

  /** decode_list's loop, one element on: the element decoded at cursor
      pos + index, measured as n bytes, is appended and the cursor moves by n. */
  lemma LItemsAdvance(s: seq<byte>, pos: nat, index: nat, items: seq<LValue>, v: LValue, n: nat)
    requires LValueOf(LParse(s, pos + index)) == Ok(v) && ValueLength(s, pos + index) == n
    ensures n > 0 && pos + index < |s|
    ensures LParseItems(s, pos + index, items) == LParseItems(s, pos + (index + n), items + [v])
  {
    LParseConsumesValueLength(s, pos + index);
  }

  /** A list element that cannot be read ends the list reading with its error. */
  lemma LItemsFail(s: seq<byte>, q: nat, items: seq<LValue>)
    requires At(s, q) != LOWER_E && LValueOf(LParse(s, q)).Err?
    ensures LParseItems(s, q, items) == Err(LValueOf(LParse(s, q)).error)
  {
  }

  /** decode_bencode(s + pos): a digit, 'i' or 'l'; anything else, a
      dictionary included, is unsupported. */
  method LDecodeBencode(s: seq<byte>, pos: nat) returns (r: Result<LValue, Error>)
    ensures r == LValueOf(LParse(s, pos))
    decreases Rest(s, pos), 1
  {
    var c := At(s, pos);
    if IsDigit(c) {
      r := LDecodeString(s, pos);
    } else if c == LOWER_I {
      var i := DecodeInteger(s, pos);
      r := if i.Ok? then Ok(LInt(i.value.n)) else Err(i.error);
    } else if c == LOWER_L {
      r := LDecodeList(s, pos);
    } else {
      r := Err(UnsupportedValue);
    }
  }

  /** decode_list(s + pos): decode an element, measure it with
      find_value_length, append it and count it, move on; stop at the 'e'. */
  method LDecodeList(s: seq<byte>, pos: nat) returns (r: Result<LValue, Error>)
    ensures At(s, pos) == LOWER_L ==> r == LValueOf(LParse(s, pos))
    ensures At(s, pos) != LOWER_L ==> r == Err(InvalidListFormat)
    decreases Rest(s, pos), 0
  {
    if At(s, pos) != LOWER_L {
      return Err(InvalidListFormat);
    }
    LListOutcome(s, pos);
    var items: seq<LValue> := [];
    var listLength: nat := 0;
    var index: nat := 1;
    while At(s, pos + index) != LOWER_E
      invariant 1 <= index && listLength == |items|
      invariant LParseItems(s, pos + index, items) == LParseItems(s, pos + 1, [])
      decreases Rest(s, pos + index)
    {
      var element := LDecodeBencode(s, pos + index);
      if element.Err? {
        LItemsFail(s, pos + index, items);
        return Err(element.error);
      }
      var elementLength := LFindValueLength(s, pos + index);
      LItemsAdvance(s, pos, index, items, element.value, elementLength);
      items := items + [element.value];
      listLength := listLength + 1;
      index := index + elementLength;
    }
    return Ok(LList(items));
  }

  // ---------------------------------------------------------------------
  // Comparison with the newer decoder

  /** A value with no dictionary anywhere in it. */
  predicate DictFree(v: Value)
    decreases v
  {
    match v
    case Dict(_) => false
    case List(items) => forall i | 0 <= i < |items| :: DictFree(items[i])
    case _ => true
  }

  predicate AllDictFree(items: seq<Value>)
  {
    forall i | 0 <= i < |items| :: DictFree(items[i])
  }

  /** What the legacy decoder makes of a dictionary-free value: each string
      becomes the strncpy buffer of its bytes. */
  function ToLegacy(v: Value): LValue
    requires DictFree(v)
    decreases v
  {
    if v.Str? then LStr(Strncpy(v.bytes, 0, |v.bytes|) + [NUL])
    else if v.Int? then LInt(v.n)
    else LList(ToLegacyItems(v.items))
  }

  function ToLegacyItems(items: seq<Value>): (r: seq<LValue>)
    requires AllDictFree(items)
    ensures |r| == |items|
    decreases items
  {
    if items == [] then [] else [ToLegacy(items[0])] + ToLegacyItems(items[1..])
  }

  /** A string's legacy buffer is one byte longer, ends in NUL and holds the
      same C string; without NULs inside, it is the bytes and a NUL. */
  lemma ToLegacyString(b: seq<byte>)
    ensures |ToLegacy(Str(b)).buffer| == |b| + 1 && ToLegacy(Str(b)).buffer[|b|] == NUL
    ensures CStr(ToLegacy(Str(b)).buffer) == CStr(b)
    ensures NulFree(b) ==> ToLegacy(Str(b)).buffer == b + [NUL]
  {
    StrncpyWhole(b);
    PaddedBuffer(CStr(b), |b|);
    if NulFree(b) {
      StrncpyNulFree(b);
    }
  }

  /** The C string of a NUL-free prefix followed by a NUL is that prefix. */
  lemma {:induction false} CStrStopsAtNul(c: seq<byte>, t: seq<byte>)
    requires NulFree(c) && |t| > 0 && t[0] == NUL
    ensures CStr(c + t) == c
  {
    if c != [] {
      assert (c + t)[1..] == c[1..] + t;
      CStrStopsAtNul(c[1..], t);
    } else {
      assert c + t == t;
    }
  }

  lemma {:induction false} ToLegacyItemsSnoc(xs: seq<Value>, x: Value)
    requires AllDictFree(xs) && DictFree(x)
    ensures AllDictFree(xs + [x])
    ensures ToLegacyItems(xs + [x]) == ToLegacyItems(xs) + [ToLegacy(x)]
  {
    assert AllDictFree(xs + [x]);
    if xs != [] {
      assert (xs + [x])[1..] == xs[1..] + [x];
      ToLegacyItemsSnoc(xs[1..], x);
    }
  }

  /** The list reading keeps what it started with as a prefix. */
  lemma {:induction false} ParseItemsExtends(s: seq<byte>, q: nat, acc: seq<Value>)
    requires ParseItems(s, q, acc).Ok?
    ensures acc <= ParseItems(s, q, acc).value.0
    decreases Rest(s, q)
  {
    if At(s, q) != LOWER_E {
      var (v, next) := Parse(s, q).value;
      ParseItemsExtends(s, next, acc + [v]);
    }
  }

  /** A dictionary-free value read by the new decoder is read by the legacy one
      to the same position, as its legacy image. */
  lemma {:induction false} NewReadIsLegacyRead(s: seq<byte>, pos: nat)
    requires Parse(s, pos).Ok? && DictFree(Parse(s, pos).value.0)
    ensures LParse(s, pos) == Ok((ToLegacy(Parse(s, pos).value.0), Parse(s, pos).value.1))
    decreases Rest(s, pos), 0
  {
    var c := At(s, pos);
    if IsDigit(c) {
      var colon := StrChr(s, pos, COLON).value;
      StrncpyInBounds(s, colon + 1, LeadingNumber(s, pos));
    } else if c == LOWER_L {
      var (items, end) := ParseItems(s, pos + 1, []).value;
      NewItemsAreLegacyItems(s, pos + 1, []);
    }
  }

  lemma {:induction false} NewItemsAreLegacyItems(s: seq<byte>, q: nat, acc: seq<Value>)
    requires ParseItems(s, q, acc).Ok? && AllDictFree(ParseItems(s, q, acc).value.0)
    requires AllDictFree(acc)
    ensures LParseItems(s, q, ToLegacyItems(acc))
         == Ok((ToLegacyItems(ParseItems(s, q, acc).value.0), ParseItems(s, q, acc).value.1))
    decreases Rest(s, q), 1
  {
    if At(s, q) != LOWER_E {
      var result := ParseItems(s, q, acc).value.0;
      var (v, next) := Parse(s, q).value;
      assert ParseItems(s, q, acc) == ParseItems(s, next, acc + [v]);
      ParseItemsExtends(s, next, acc + [v]);
      assert result[|acc|] == v;
      NewReadIsLegacyRead(s, q);
      ToLegacyItemsSnoc(acc, v);
      NewItemsAreLegacyItems(s, next, acc + [v]);
    }
  }

  /** A legacy reading that ends inside the input is a new reading of a
      dictionary-free value, to the same position. */
  lemma {:induction false} LegacyReadInBounds(s: seq<byte>, pos: nat)
    requires LParse(s, pos).Ok? && LParse(s, pos).value.1 <= |s|
    ensures Parse(s, pos).Ok? && DictFree(Parse(s, pos).value.0)
    ensures Parse(s, pos).value.1 == LParse(s, pos).value.1
    decreases Rest(s, pos), 0
  {
    if At(s, pos) == LOWER_L {
      LegacyItemsInBounds(s, pos + 1, [], []);
    }
  }

  lemma {:induction false} LegacyItemsInBounds(s: seq<byte>, q: nat, lacc: seq<LValue>, acc: seq<Value>)
    requires LParseItems(s, q, lacc).Ok? && LParseItems(s, q, lacc).value.1 <= |s|
    requires AllDictFree(acc)
    ensures ParseItems(s, q, acc).Ok? && AllDictFree(ParseItems(s, q, acc).value.0)
    ensures ParseItems(s, q, acc).value.1 == LParseItems(s, q, lacc).value.1
    decreases Rest(s, q), 1
  {
    if At(s, q) != LOWER_E {
      var (lv, next) := LParse(s, q).value;
      assert LParseItems(s, q, lacc) == LParseItems(s, next, lacc + [lv]);
      LegacyReadInBounds(s, q);
      var v := Parse(s, q).value.0;
      assert AllDictFree(acc + [v]);
      LegacyItemsInBounds(s, next, lacc + [lv], acc + [v]);
    }
  }

  /**
   * The legacy decoder reads a value ending inside the input exactly when the
   * new decoder reads a value without dictionaries; then both stop at the same
   * position and the legacy value is the new one with each string replaced by
   * its strncpy buffer.
   */
  lemma LegacyAgreement(s: seq<byte>, pos: nat)
    ensures (Parse(s, pos).Ok? && DictFree(Parse(s, pos).value.0))
        <==> (LParse(s, pos).Ok? && LParse(s, pos).value.1 <= |s|)
    ensures Parse(s, pos).Ok? && DictFree(Parse(s, pos).value.0) ==>
              LParse(s, pos) == Ok((ToLegacy(Parse(s, pos).value.0), Parse(s, pos).value.1))
  {
    if Parse(s, pos).Ok? && DictFree(Parse(s, pos).value.0) {
      NewReadIsLegacyRead(s, pos);
    }
    if LParse(s, pos).Ok? && LParse(s, pos).value.1 <= |s| {
      LegacyReadInBounds(s, pos);
    }
  }
}
