/**
 String helpers with the semantics of the JavaScript built-ins the service
 relies on: `String.prototype.split` on one character, the `\s` whitespace
 class used by `trim`, `parseInt` without a radix, decimal rendering of
 integers, and `String.prototype.length` (UTF-16 code units).
 */
module Text {
  import opened Options

  // ---------------------------------------------------------------------
  // Searching and splitting

  /** Position of the first occurrence of `c` in `s`. */
  function IndexOf(s: string, c: char): (i: nat)
    requires c in s
    ensures i < |s| && s[i] == c
    ensures forall k :: 0 <= k < i ==> s[k] != c
  {
    if s[0] == c then 0 else 1 + IndexOf(s[1..], c)
  }

  /** Position of the last occurrence of `c` in `s`. */
  function LastIndexOf(s: string, c: char): (i: nat)
    requires c in s
    ensures i < |s| && s[i] == c
    ensures forall k :: i < k < |s| ==> s[k] != c
  {
    if s[|s| - 1] == c then |s| - 1 else LastIndexOf(s[..|s| - 1], c)
  }

  /** A separator-free prefix ends exactly where the separator follows it. */
  lemma IndexOfAfterPrefix(x: string, c: char, y: string)
    requires c !in x
    ensures c in x + [c] + y
    ensures IndexOf(x + [c] + y, c) == |x|
  {
    var s := x + [c] + y;
    assert s[|x|] == c;
    assert forall k :: 0 <= k < |x| ==> s[k] == x[k];
  }

  /** Splitting at a first separator peels off the piece before it. */
  lemma SplitAtFirst(x: string, sep: char, y: string)
    requires sep !in x
    ensures Split(x + [sep] + y, sep) == [x] + Split(y, sep)
  {
    var s := x + [sep] + y;
    IndexOfAfterPrefix(x, sep, y);
    assert s[..|x|] == x;
    assert s[|x| + 1..] == y;
  }

  /** `s.split(sep)` for a one-character separator: the maximal separator-free
      pieces of `s`, in order, including empty ones. */
  function Split(s: string, sep: char): (parts: seq<string>)
    ensures |parts| >= 1
    ensures forall k :: 0 <= k < |parts| ==> sep !in parts[k]
    decreases |s|
  {
    if sep !in s then [s]
    else
      var i := IndexOf(s, sep);
      assert sep !in s[..i];
      [s[..i]] + Split(s[i + 1..], sep)
  }

  /** `parts.join(sep)`, the inverse of `Split`. */
  function Join(parts: seq<string>, sep: char): string
    requires |parts| >= 1
  {
    if |parts| == 1 then parts[0] else parts[0] + [sep] + Join(parts[1..], sep)
  }

  /** Splitting and re-joining gives back the original string. */
  lemma {:induction false} JoinSplit(s: string, sep: char)
    ensures Join(Split(s, sep), sep) == s
    decreases |s|
  {
    if sep in s {
      var i := IndexOf(s, sep);
      var rest := s[i + 1..];
      JoinSplit(rest, sep);
      var parts := Split(s, sep);
      assert parts == [s[..i]] + Split(rest, sep);
      assert parts[1..] == Split(rest, sep);
      assert s == s[..i] + [sep] + rest;
    }
  }

  /** Joining separator-free pieces and splitting again recovers the pieces. */
  lemma {:induction false} SplitJoin(parts: seq<string>, sep: char)
    requires |parts| >= 1
    requires forall k :: 0 <= k < |parts| ==> sep !in parts[k]
    ensures Split(Join(parts, sep), sep) == parts
    decreases |parts|
  {
    if |parts| > 1 {
      var rest := Join(parts[1..], sep);
      assert Join(parts, sep) == parts[0] + [sep] + rest;
      SplitAtFirst(parts[0], sep, rest);
      SplitJoin(parts[1..], sep);
      assert parts == [parts[0]] + parts[1..];
    }
  }

  // ---------------------------------------------------------------------
  // Digits and decimal rendering

  predicate IsDigit(c: char) { '0' <= c <= '9' }

  predicate IsAsciiLetter(c: char) { 'a' <= c <= 'z' || 'A' <= c <= 'Z' }

  predicate AllDigits(s: string) { forall k :: 0 <= k < |s| ==> IsDigit(s[k]) }

  /** The digit value `parseInt` gives a character in any radix up to 36;
      36 for a character that is no digit at all. */
  function CharDigit(c: char): (d: nat)
    ensures d <= 36
    ensures d < 10 <==> IsDigit(c)
  {
    if IsDigit(c) then c as int - '0' as int
    else if 'a' <= c <= 'z' then c as int - 'a' as int + 10
    else if 'A' <= c <= 'Z' then c as int - 'A' as int + 10
    else 36
  }

  /** The decimal digit character for `d`. */
  function DigitChar(d: nat): (c: char)
    requires d < 10
    ensures IsDigit(c) && CharDigit(c) == d
  {
    ('0' as int + d) as char
  }

  /** The value of a string of digits in the given radix, most significant first. */
  function DigitsValue(s: string, radix: nat): nat
    requires forall k :: 0 <= k < |s| ==> CharDigit(s[k]) < radix
  {
    if |s| == 0 then 0
    else radix * DigitsValue(s[..|s| - 1], radix) + CharDigit(s[|s| - 1])
  }

  /** `String(n)` for a non-negative integer: its shortest decimal rendering. */
  function NatToString(n: nat): (s: string)
    ensures 1 <= |s| && AllDigits(s)
    ensures s[0] == '0' ==> n == 0
    decreases n
  {
    if n < 10 then [DigitChar(n)] else NatToString(n / 10) + [DigitChar(n % 10)]
  }

  /** Reading back a rendered number gives the number. */
  lemma {:induction false} NatToStringValue(n: nat)
    ensures DigitsValue(NatToString(n), 10) == n
    decreases n
  {
    if n >= 10 {
      var s := NatToString(n);
      assert s[..|s| - 1] == NatToString(n / 10);
      NatToStringValue(n / 10);
    }
  }

  /** A non-empty all-digit string read as a decimal number. */
  function ParseNat(s: string): (r: Option<nat>)
    ensures r.Some? <==> 1 <= |s| && AllDigits(s)
  {
    if 1 <= |s| && AllDigits(s) then Some(DigitsValue(s, 10)) else None
  }

  lemma ParseNatToString(n: nat)
    ensures ParseNat(NatToString(n)) == Some(n)
  {
    NatToStringValue(n);
  }

  // ---------------------------------------------------------------------
  // Whitespace and trimming

  /** The characters of the JavaScript `\s` class (WhiteSpace and LineTerminator). */
  predicate IsSpace(c: char) {
    var n := c as int;
    n == 0x09 || n == 0x0A || n == 0x0B || n == 0x0C || n == 0x0D || n == 0x20
    || n == 0xA0 || n == 0x1680 || (0x2000 <= n <= 0x200A)
    || n == 0x2028 || n == 0x2029 || n == 0x202F || n == 0x205F || n == 0x3000 || n == 0xFEFF
  }

  /** `s` with its leading whitespace removed. */
  function TrimStart(s: string): (r: string)
    ensures |r| <= |s| && r == s[|s| - |r|..]
    ensures forall k :: 0 <= k < |s| - |r| ==> IsSpace(s[k])
    ensures |r| > 0 ==> !IsSpace(r[0])
  {
    if |s| > 0 && IsSpace(s[0]) then TrimStart(s[1..]) else s
  }

  /** `s` with its trailing whitespace removed. */
  function TrimEnd(s: string): (r: string)
    ensures |r| <= |s| && r == s[..|r|]
    ensures forall k :: |r| <= k < |s| ==> IsSpace(s[k])
    ensures |r| > 0 ==> !IsSpace(r[|r| - 1])
  {
    if |s| > 0 && IsSpace(s[|s| - 1]) then TrimEnd(s[..|s| - 1]) else s
  }

  /** The `trim()` sanitiser: whitespace removed at both ends. */
  function Trim(s: string): string {
    TrimEnd(TrimStart(s))
  }

  /** `Trim` keeps the middle of `s` and drops only whitespace around it. */
  lemma TrimShape(s: string)
    ensures exists a, b :: (0 <= a <= b <= |s| && Trim(s) == s[a..b]
                            && (forall k :: 0 <= k < a ==> IsSpace(s[k]))
                            && (forall k :: b <= k < |s| ==> IsSpace(s[k])))
  {
    var t := TrimStart(s);
    var a := |s| - |t|;
    var r := TrimEnd(t);
    var b := a + |r|;
    assert r == s[a..b] by {
      assert t == s[a..];
      assert r == t[..|r|];
    }
    forall k | b <= k < |s| ensures IsSpace(s[k]) {
      assert s[k] == t[k - a];
    }
  }

  /** What `Trim` keeps neither starts nor ends with whitespace. */
  lemma TrimEnds(s: string)
    ensures |Trim(s)| > 0 ==> !IsSpace(Trim(s)[0]) && !IsSpace(Trim(s)[|Trim(s)| - 1])
  {
    var t := TrimStart(s);
    var r := TrimEnd(t);
    if |r| > 0 {
      assert r[0] == t[0];
    }
  }

  /** Trimming twice is trimming once. */
  lemma TrimIdempotent(s: string)
    ensures Trim(Trim(s)) == Trim(s)
  {
    var r := Trim(s);
    TrimEnds(s);
    if |r| > 0 {
      assert TrimStart(r) == r;
      assert TrimEnd(r) == r;
    }
  }

  // ---------------------------------------------------------------------
  // String length in UTF-16 code units

  /** Code units a character occupies in UTF-16: two above the Basic Multilingual Plane. */
  function CodeUnits(c: char): nat {
    if c as int >= 0x10000 then 2 else 1
  }

  /** JavaScript's `s.length`, which counts UTF-16 code units rather than characters. */
  function Utf16Length(s: string): (n: nat)
    ensures |s| <= n <= 2 * |s|
    ensures (forall k :: 0 <= k < |s| ==> (s[k] as int) < 0x10000) ==> n == |s|
  {
    if |s| == 0 then 0 else Utf16Length(s[..|s| - 1]) + CodeUnits(s[|s| - 1])
  }

  // ---------------------------------------------------------------------
  // parseInt without a radix

  /** The longest prefix of `s` made of digits in the given radix. */
  function LeadingDigits(s: string, radix: nat): (p: string)
    ensures |p| <= |s| && p == s[..|p|]
    ensures forall k :: 0 <= k < |p| ==> CharDigit(p[k]) < radix
    ensures |p| < |s| ==> CharDigit(s[|p|]) >= radix
  {
    if |s| > 0 && CharDigit(s[0]) < radix then [s[0]] + LeadingDigits(s[1..], radix) else []
  }

  /** The magnitude read from the digits at the start of `s`; `None` (NaN) when there are none. */
  function Magnitude(s: string, radix: nat): Option<nat> {
    var p := LeadingDigits(s, radix);
    if |p| == 0 then None else Some(DigitsValue(p, radix))
  }

  /** The text after an optional leading sign. */
  function Unsigned(t: string): (u: string)
    ensures |u| <= |t|
  {
    if |t| > 0 && (t[0] == '-' || t[0] == '+') then t[1..] else t
  }

  /** The magnitude of unsigned text: hexadecimal after a `0x`/`0X` prefix, decimal otherwise. */
  function UnsignedMagnitude(u: string): Option<nat> {
    if |u| >= 2 && u[0] == '0' && (u[1] == 'x' || u[1] == 'X') then Magnitude(u[2..], 16)
    else Magnitude(u, 10)
  }

  /** `parseInt(s)`: leading whitespace skipped, an optional sign, a `0x`/`0X`
      prefix selecting radix 16, then the longest run of digits; `None` is NaN.
      Precision loss above 2^53 is not modelled. */
  function ParseInt(s: string): Option<int> {
    var t := TrimStart(s);
    match UnsignedMagnitude(Unsigned(t))
    case None => None
    case Some(v) => var i: int := v; Some(if |t| > 0 && t[0] == '-' then -i else i)
  }

  /** A string matching `^[-+]?[0-9]+$`, the integer shape `isInt` accepts. */
  predicate IsIntString(s: string) {
    1 <= |Unsigned(s)| && AllDigits(Unsigned(s))
  }

  /** The value of a string of the `IsIntString` shape. */
  function IntStringValue(s: string): int
    requires IsIntString(s)
  {
    if s[0] == '-' then 0 - DigitsValue(s[1..], 10)
    else if s[0] == '+' then DigitsValue(s[1..], 10)
    else DigitsValue(s, 10)
  }

  /** On an integer-shaped string, `parseInt` reads exactly its value. */
  lemma ParseIntOfIntString(s: string)
    requires IsIntString(s)
    ensures ParseInt(s) == Some(IntStringValue(s))
  {
    var u := Unsigned(s);
    assert IsDigit(u[0]);
    assert !IsSpace(s[0]);
    assert TrimStart(s) == s;
    assert UnsignedMagnitude(u) == Magnitude(u, 10) by {
      if |u| >= 2 {
        assert IsDigit(u[1]);
      }
    }
    LeadingDigitsOfDigits(u);
  }

  lemma {:induction false} LeadingDigitsOfDigits(u: string)
    requires AllDigits(u)
    ensures LeadingDigits(u, 10) == u
    decreases |u|
  {
    if |u| > 0 {
      LeadingDigitsOfDigits(u[1..]);
      assert u == [u[0]] + u[1..];
    }
  }

  /** `parseInt(String(n)) == n`. */
  lemma ParseIntOfNatToString(n: nat)
    ensures ParseInt(NatToString(n)) == Some(n)
  {
    var s := NatToString(n);
    assert IsIntString(s);
    ParseIntOfIntString(s);
    NatToStringValue(n);
  }
}
