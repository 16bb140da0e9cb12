/**
 * The C library text routines the client's byte-level code leans on, modelled
 * over byte sequences: a buffer `s` stands for a NUL-terminated C buffer whose
 * terminator sits just past its last byte, so reading at index |s| or beyond
 * yields NUL (the byte is allowed to occur inside `s` too, as in binary data).
 */
module CText {
  import opened Wrappers

  newtype byte = b: int | 0 <= b < 256

  const NUL: byte := 0
  const NEWLINE: byte := 10
  const SPACE: byte := 32
  const PLUS: byte := 43
  const MINUS: byte := 45
  const DOT: byte := 46
  const ZERO: byte := 48
  const NINE: byte := 57
  const COLON: byte := 58
  const LOWER_D: byte := 100
  const LOWER_E: byte := 101
  const LOWER_I: byte := 105
  const LOWER_L: byte := 108

  /** The bytes of an ASCII (Latin-1) string literal. */
  function Ascii(t: string): (r: seq<byte>)
    requires forall i | 0 <= i < |t| :: t[i] as int < 256
    ensures |r| == |t|
    ensures forall i | 0 <= i < |t| :: r[i] as int == t[i] as int
  {
    seq(|t|, i requires 0 <= i < |t| => t[i] as int as byte)
  }

  /** `s[i]` of a terminated buffer: NUL at and past the end. */
  function At(s: seq<byte>, i: nat): byte
  {
    if i < |s| then s[i] else NUL
  }

  /** How many bytes of `s` lie at or after `i`; the measure of every scan. */
  function Rest(s: seq<byte>, i: nat): nat
  {
    if i < |s| then |s| - i else 0
  }

  /** n zero bytes (NUL bytes). */
  function Zeros(n: nat): (r: seq<byte>)
    ensures |r| == n && forall k | 0 <= k < n :: r[k] == 0
  {
    seq(n, _ => 0)
  }

  /** `s` holds no NUL byte, so C's string functions see all of it. */
  predicate NulFree(s: seq<byte>)
  {
    forall k | 0 <= k < |s| :: s[k] != NUL
  }

  /**
   * strchr(s + from, c) for a non-NUL `c`: the index of the first `c` at or
   * after `from`, or None when a NUL (or the end of the buffer) comes first.
   */
  function StrChr(s: seq<byte>, from: nat, c: byte): (r: Option<nat>)
    requires c != NUL
    ensures r.Some? ==> from <= r.value < |s| && s[r.value] == c
    decreases Rest(s, from)
  {
    if from >= |s| then None
    else if s[from] == c then Some(from)
    else if s[from] == NUL then None
    else StrChr(s, from + 1, c)
  }

  /** What strchr finds is the first `c`, and no NUL comes before it. */
  lemma {:induction false} StrChrFirst(s: seq<byte>, from: nat, c: byte, k: nat)
    requires c != NUL && StrChr(s, from, c).Some? && from <= k < StrChr(s, from, c).value
    ensures s[k] != c && s[k] != NUL
    decreases Rest(s, from)
  {
    if from < k {
      StrChrFirst(s, from + 1, c, k);
    }
  }

  /** When strchr finds nothing, every `c` at or after `from` lies past a NUL. */
  lemma {:induction false} StrChrMisses(s: seq<byte>, from: nat, c: byte, k: nat)
    requires c != NUL && StrChr(s, from, c).None? && from <= k < |s| && s[k] == c
    ensures exists m | from <= m < k :: s[m] == NUL
    decreases Rest(s, from)
  {
    if s[from] == NUL {
      assert from < k;
    } else {
      StrChrMisses(s, from + 1, c, k);
    }
  }

  /** The `c` at `j` is the one strchr finds from `from`. */
  lemma {:induction false} StrChrFinds(s: seq<byte>, from: nat, c: byte, j: nat)
    requires c != NUL && from <= j < |s| && s[j] == c
    requires forall k | from <= k < j :: s[k] != c && s[k] != NUL
    ensures StrChr(s, from, c) == Some(j)
    decreases j - from
  {
    if from < j {
      assert s[from] != c && s[from] != NUL;
      StrChrFinds(s, from + 1, c, j);
    }
  }

  /** is_digit (and C's isdigit): an ASCII decimal digit. */
  predicate IsDigit(c: byte)
  {
    ZERO <= c <= NINE
  }

  /** C's isspace in the "C" locale. */
  predicate IsSpace(c: byte)
  {
    c == SPACE || 9 <= c <= 13
  }

  /** The end of the run of digits that starts at `i`. */
  function DigitsEnd(s: seq<byte>, i: nat): (j: nat)
    requires i <= |s|
    ensures i <= j <= |s|
    ensures !IsDigit(At(s, j))
    decreases Rest(s, i)
  {
    if IsDigit(At(s, i)) then DigitsEnd(s, i + 1) else i
  }

  /** Every byte before DigitsEnd is a digit. */
  lemma {:induction false} DigitsEndDigits(s: seq<byte>, i: nat, k: nat)
    requires i <= |s| && i <= k < DigitsEnd(s, i)
    ensures IsDigit(s[k])
    decreases Rest(s, i)
  {
    if i < k {
      DigitsEndDigits(s, i + 1, k);
    }
  }

  /** A run of digits from `i` that stops at `j` ends at j. */
  lemma {:induction false} DigitsEndAt(s: seq<byte>, i: nat, j: nat)
    requires i <= j <= |s| && !IsDigit(At(s, j))
    requires forall k | i <= k < j :: IsDigit(s[k])
    ensures DigitsEnd(s, i) == j
    decreases j - i
  {
    if i < j {
      assert IsDigit(s[i]);
      DigitsEndAt(s, i + 1, j);
    }
  }

  /** The end of the run of white space that starts at `i`. */
  function SpaceEnd(s: seq<byte>, i: nat): (j: nat)
    requires i <= |s|
    ensures i <= j <= |s|
    decreases Rest(s, i)
  {
    if IsSpace(At(s, i)) then SpaceEnd(s, i + 1) else i
  }

  /** The value of one decimal digit (0 for any other byte, which is never asked). */
  function DigitOf(c: byte): nat
  {
    if IsDigit(c) then (c - ZERO) as int else 0
  }

  /** The number the decimal digits `s[i..j]` spell, most significant first. */
  function DigitsValue(s: seq<byte>, i: nat, j: nat): nat
    requires i <= j <= |s|
    decreases j - i
  {
    if i == j then 0 else DigitsValue(s, i, j - 1) * 10 + DigitOf(s[j - 1])
  }

  /** atoi(s + i) where `s[i]` is a digit: the value of the leading digit run. */
  function LeadingNumber(s: seq<byte>, i: nat): nat
    requires i <= |s|
  {
    DigitsValue(s, i, DigitsEnd(s, i))
  }

  /**
   * atoll(t): leading white space, an optional sign, then the longest run of
   * digits; 0 when there are none.  (Overflow, undefined in C, is not modelled.)
   */
  function CAtoll(t: seq<byte>): int
  {
    var i := SpaceEnd(t, 0);
    var j := if At(t, i) == MINUS || At(t, i) == PLUS then i + 1 else i;
    var m: int := DigitsValue(t, j, DigitsEnd(t, j));
    if At(t, i) == MINUS then -m else m
  }

  /** n / 10, counted by repeated subtraction so that it stays linear for the solver. */
  function Tens(n: nat): nat
  {
    if n < 10 then 0 else 1 + Tens(n - 10)
  }

  lemma {:induction false} TensBounds(n: nat)
    ensures Tens(n) * 10 <= n < Tens(n) * 10 + 10
    decreases n
  {
    if n >= 10 {
      TensBounds(n - 10);
    }
  }

  /** printf's "%zu" / "%d" of a non-negative number: the digits of n / 10,
      then the digit n % 10. */
  function Decimal(n: nat): (r: seq<byte>)
    ensures 1 <= |r|
    ensures forall k | 0 <= k < |r| :: IsDigit(r[k])
    ensures r[0] == ZERO ==> n == 0
  {
    if n < 10 then [(ZERO as int + n) as byte]
    else TensBounds(n); Decimal(Tens(n)) + [(ZERO as int + (n - Tens(n) * 10)) as byte]
  }

  /** printf's "%d" / PRId64 of any integer: a minus sign, then the digits. */
  function SignedDecimal(n: int): seq<byte>
  {
    if n < 0 then [MINUS] + Decimal(-n) else Decimal(n)
  }

  /** strlen/strndup view of a buffer: the bytes before its first NUL. */
  function CStr(d: seq<byte>): (r: seq<byte>)
    ensures r <= d && NulFree(r)
    ensures |r| < |d| ==> d[|r|] == NUL
  {
    if d == [] || d[0] == NUL then [] else [d[0]] + CStr(d[1..])
  }

  lemma CStrOfNulFree(d: seq<byte>)
    requires NulFree(d)
    ensures CStr(d) == d
  {
  }

  /** is_digit accepts exactly the ten bytes printf writes for one decimal digit. */
  lemma IsDigitExactly(c: byte)
    ensures IsDigit(c) <==> exists d | 0 <= d < 10 :: Decimal(d) == [c]
  {
    if IsDigit(c) {
      var d := (c - ZERO) as int;
      assert Decimal(d) == [c];
    }
  }

  /** The digits of Decimal(n), found at `i`, spell n again. */
  lemma {:induction false} DecimalValue(s: seq<byte>, i: nat, n: nat)
    requires i + |Decimal(n)| <= |s| && s[i..i + |Decimal(n)|] == Decimal(n)
    ensures forall k | i <= k < i + |Decimal(n)| :: IsDigit(s[k])
    ensures DigitsValue(s, i, i + |Decimal(n)|) == n
  {
    var D := Decimal(n);
    assert forall k | i <= k < i + |D| :: s[k] == D[k - i];
    if n >= 10 {
      var D' := Decimal(Tens(n));
      TensBounds(n);
      var last := n - Tens(n) * 10;
      assert D == D' + [(ZERO as int + last) as byte];
      assert s[i..i + |D'|] == D';
      DecimalValue(s, i, Tens(n));
      var j := i + |D'|;
      assert s[j] == (ZERO as int + last) as byte;
      assert DigitsValue(s, i, j + 1) == DigitsValue(s, i, j) * 10 + last;
    }
  }

  /** atoi reads back what "%zu" wrote, provided no digit follows it. */
  lemma DecimalParses(s: seq<byte>, i: nat, n: nat)
    requires i + |Decimal(n)| <= |s| && s[i..i + |Decimal(n)|] == Decimal(n)
    requires !IsDigit(At(s, i + |Decimal(n)|))
    ensures DigitsEnd(s, i) == i + |Decimal(n)|
    ensures LeadingNumber(s, i) == n
  {
    DecimalValue(s, i, n);
    DigitsEndAt(s, i, i + |Decimal(n)|);
  }

  /** atoll reads back what PRId64 wrote. */
  lemma CAtollSignedDecimal(n: int)
    ensures CAtoll(SignedDecimal(n)) == n
  {
    var t := SignedDecimal(n);
    if n < 0 {
      assert t[1..] == Decimal(-n);
      DecimalParses(t, 1, -n);
    } else {
      assert t[0..] == Decimal(n);
      DecimalParses(t, 0, n);
    }
  }
}
