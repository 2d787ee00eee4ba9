/** String helpers with JavaScript semantics: decimal formatting of integers
    (`String(n)`, `padStart(2, '0')`), `parseInt` with its default radix,
    `trim`, the code-unit ordering that `Array.prototype.sort` uses, and an
    ASCII case-insensitive substring test. */
module Text {

  predicate IsDigit(c: char) {
    '0' <= c <= '9'
  }

  function DigitChar(d: int): (c: char)
    requires 0 <= d < 10
    ensures IsDigit(c) && DigitValue(c, 10) == d
  {
    (d + '0' as int) as char
  }

  /** `String(n)` for a natural number: its shortest decimal numeral. */
  function NatToString(n: nat): (s: string)
    ensures 1 <= |s|
    ensures IsNumeral(s, 10)
    ensures |s| > 1 ==> s[0] != '0'
  {
    if n < 10 then [DigitChar(n)] else NatToString(n / 10) + [DigitChar(n % 10)]
  }

  /** `String(n)` for an integer. */
  function IntToString(n: int): string {
    if n < 0 then "-" + NatToString(-n) else NatToString(n)
  }

  /** `padStart(2, '0')`. */
  function PadStart2(s: string): (r: string)
    ensures |s| >= 2 ==> r == s
    ensures |s| < 2 ==> |r| == 2 && r[2 - |s|..] == s && forall i :: 0 <= i < 2 - |s| ==> r[i] == '0'
  {
    if |s| >= 2 then s else seq(2 - |s|, _ => '0') + s
  }

  /** `String(n).padStart(2, '0')`, the two-digit fields of a date key. */
  function TwoDigits(n: int): string {
    PadStart2(IntToString(n))
  }

  /** For 0..99 the padded numeral is the tens digit followed by the units
      digit. */
  lemma TwoDigitsIs(n: int)
    requires 0 <= n < 100
    ensures TwoDigits(n) == [DigitChar(n / 10), DigitChar(n % 10)]
  {
    if n >= 10 {
      assert NatToString(n) == NatToString(n / 10) + [DigitChar(n % 10)];
    }
  }

  lemma TwoDigitsInjective(a: int, b: int)
    requires 0 <= a < 100 && 0 <= b < 100
    requires TwoDigits(a) == TwoDigits(b)
    ensures a == b
  {
    TwoDigitsIs(a);
    TwoDigitsIs(b);
    assert DigitChar(a / 10) == DigitChar(b / 10) && DigitChar(a % 10) == DigitChar(b % 10);
  }

  /** A numeral written by `String` holds digits and at most a minus sign. */
  lemma IntToStringChars(n: int)
    ensures forall i :: 0 <= i < |IntToString(n)| ==> IntToString(n)[i] == '-' || IsDigit(IntToString(n)[i])
  {
    var m := if n < 0 then -n else n;
    assert IsNumeral(NatToString(m), 10);
  }

  /** `a + "-W" + b` splits back into `a` and `b` when `a` holds no `W`. */
  lemma {:induction false} WeekJoinInjective(a: string, b: string, c: string, d: string)
    requires forall i :: 0 <= i < |a| ==> a[i] != 'W'
    requires forall i :: 0 <= i < |c| ==> c[i] != 'W'
    requires a + "-W" + b == c + "-W" + d
    ensures a == c && b == d
  {
    var l, r := a + "-W" + b, c + "-W" + d;
    assert l[|a| + 1] == 'W' && r[|c| + 1] == 'W';
    assert forall i :: 0 <= i <= |a| ==> l[i] != 'W';
    assert forall i :: 0 <= i <= |c| ==> r[i] != 'W';
    assert |a| == |c|;
    assert a == l[..|a|] && c == r[..|c|];
    assert b == l[|a| + 2..] && d == r[|c| + 2..];
  }

  /** `a + "-" + b` splits back into `a` and `b` when the tails have the
      same length. */
  lemma SameLengthTails(a: string, b: string, c: string, d: string)
    requires |b| == |d| && a + "-" + b == c + "-" + d
    ensures a == c && b == d
  {
    var l, r := a + "-" + b, c + "-" + d;
    assert |a| == |c|;
    assert a == l[..|a|] && c == r[..|c|];
    assert b == l[|a| + 1..] && d == r[|c| + 1..];
  }

  // ---------------------------------------------------------------------
  // parseInt

  /** Result of `parseInt`: `NaN` when no digit could be read. */
  datatype ParsedInt = NaN | Num(value: int)

  /** The characters `trim` and `parseInt` skip: the WhiteSpace and
      LineTerminator code points of ECMAScript (TAB, VT, FF, ZWNBSP, every
      space separator of category Zs, LF, CR, LS and PS). */
  predicate IsSpace(c: char) {
    c == '\t' || c == '\n' || c == '\U{B}' || c == '\U{C}' || c == '\r' || c == ' '
    || c == '\U{A0}' || c == '\U{1680}' || ('\U{2000}' <= c <= '\U{200A}')
    || c == '\U{2028}' || c == '\U{2029}' || c == '\U{202F}' || c == '\U{205F}'
    || c == '\U{3000}' || c == '\U{FEFF}'
  }

  /** Value of `c` as a digit of `radix` (10 or 16), or -1. */
  function DigitValue(c: char, radix: int): (v: int)
    requires radix == 10 || radix == 16
    ensures -1 <= v < radix
  {
    if '0' <= c <= '9' then c as int - '0' as int
    else if radix == 16 && 'a' <= c <= 'f' then c as int - 'a' as int + 10
    else if radix == 16 && 'A' <= c <= 'F' then c as int - 'A' as int + 10
    else -1
  }

  function TrimStart(s: string): (r: string)
    ensures |r| <= |s| && r == s[|s| - |r|..]
    ensures |r| > 0 ==> !IsSpace(r[0])
  {
    if |s| > 0 && IsSpace(s[0]) then TrimStart(s[1..]) else s
  }

  function TrimEnd(s: string): (r: string)
    ensures |r| <= |s| && r == s[..|r|]
    ensures |r| > 0 ==> !IsSpace(r[|r| - 1])
  {
    if |s| > 0 && IsSpace(s[|s| - 1]) then TrimEnd(s[..|s| - 1]) else s
  }

  /** `String.prototype.trim`. */
  function Trim(s: string): string {
    TrimEnd(TrimStart(s))
  }

  /** Length of the longest prefix of `s` made of digits of `radix`. */
  function DigitPrefix(s: string, radix: int): (n: nat)
    requires radix == 10 || radix == 16
    ensures n <= |s|
    ensures IsNumeral(s[..n], radix)
    ensures n < |s| ==> DigitValue(s[n], radix) < 0
  {
    if |s| > 0 && DigitValue(s[0], radix) >= 0 then 1 + DigitPrefix(s[1..], radix) else 0
  }

  /** Every character of `s` is a digit of `radix`. */
  predicate IsNumeral(s: string, radix: int)
    requires radix == 10 || radix == 16
  {
    forall i :: 0 <= i < |s| ==> DigitValue(s[i], radix) >= 0
  }

  /** Value of a numeral all of whose characters are digits of `radix`. */
  function NumeralValue(s: string, radix: int): (v: nat)
    requires radix == 10 || radix == 16
    requires IsNumeral(s, radix)
  {
    if |s| == 0 then 0 else NumeralValue(s[..|s| - 1], radix) * radix + DigitValue(s[|s| - 1], radix)
  }

  /** `parseInt(s)` with no radix argument: skip leading white space, read an
      optional sign, read a `0x`/`0X` prefix as radix 16, then the longest run
      of digits; no digit at all gives NaN. */
  function ParseInt(s: string): ParsedInt {
    ParseSigned(TrimStart(s))
  }

  function ParseSigned(t: string): ParsedInt {
    if |t| > 0 && t[0] == '-' then Negate(ParseUnsigned(t[1..]))
    else if |t| > 0 && t[0] == '+' then ParseUnsigned(t[1..])
    else ParseUnsigned(t)
  }

  function Negate(p: ParsedInt): ParsedInt {
    match p
    case NaN => NaN
    case Num(v) => Num(-v)
  }

  function ParseUnsigned(u: string): ParsedInt {
    if |u| >= 2 && u[0] == '0' && (u[1] == 'x' || u[1] == 'X') then ParseDigits(u[2..], 16)
    else ParseDigits(u, 10)
  }

  function ParseDigits(w: string, radix: int): ParsedInt
    requires radix == 10 || radix == 16
  {
    var n := DigitPrefix(w, radix);
    if n == 0 then NaN else Num(NumeralValue(w[..n], radix))
  }

  /** `parseInt` reads back every numeral `String` writes. */
  lemma ParseIntOfIntToString(n: int)
    ensures ParseInt(IntToString(n)) == Num(n)
  {
    if n < 0 {
      ParseIntOfNegative(n);
    } else {
      ParseIntOfNatToString(n);
    }
  }

  lemma ParseIntOfNatToString(n: int)
    requires n >= 0
    ensures ParseInt(IntToString(n)) == Num(n)
  {
    var s := NatToString(n);
    NumeralValueOfNatToString(n);
    ParseUnsignedNumeral(s);
    ParseUnsignedOnly(s);
  }

  lemma ParseIntOfNegative(n: int)
    requires n < 0
    ensures ParseInt(IntToString(n)) == Num(n)
  {
    var d := NatToString(-n);
    NumeralValueOfNatToString(-n);
    ParseUnsignedNumeral(d);
    assert ParseUnsigned(d) == Num(-n);
    assert Negate(Num(-n)) == Num(n);
    MinusAndDigits(n);
    ParseMinus(IntToString(n), d);
  }

  /** `String` of a negative number is a minus sign before the numeral of
      its magnitude. */
  lemma MinusAndDigits(n: int)
    requires n < 0
    ensures |IntToString(n)| > 1 && IntToString(n)[0] == '-' && IntToString(n)[1..] == NatToString(-n)
  {
  }

  /** `parseInt` of a string that starts with a digit reads it unsigned. */
  lemma ParseUnsignedOnly(s: string)
    requires |s| > 0 && IsNumeral(s, 10)
    ensures ParseInt(s) == ParseUnsigned(s)
  {
    assert DigitValue(s[0], 10) >= 0;
    TrimStartKeeps(s);
  }

  /** `parseInt` of a minus sign and digits negates the digits' value. */
  lemma ParseMinus(s: string, d: string)
    requires |s| > 0 && s[0] == '-' && s[1..] == d
    ensures ParseInt(s) == Negate(ParseUnsigned(d))
  {
    TrimStartKeeps(s);
  }

  /** `trim` and `parseInt` skip nothing before a digit or a minus sign. */
  lemma TrimStartKeeps(s: string)
    requires |s| > 0 && (IsDigit(s[0]) || s[0] == '-')
    ensures TrimStart(s) == s
  {
    assert !IsSpace(s[0]);
  }

  /** `parseInt` of a decimal numeral without sign. */
  lemma ParseUnsignedNumeral(digits: string)
    requires 1 <= |digits| && IsNumeral(digits, 10)
    ensures ParseUnsigned(digits) == Num(NumeralValue(digits, 10))
  {
    DigitPrefixAll(digits);
    assert digits[..|digits|] == digits;
  }

  lemma DigitPrefixAll(s: string)
    requires IsNumeral(s, 10)
    ensures DigitPrefix(s, 10) == |s|
  {
    if |s| > 0 {
      DigitPrefixAll(s[1..]);
    }
  }

  lemma {:induction false} NumeralValueOfNatToString(n: nat)
    ensures NumeralValue(NatToString(n), 10) == n
  {
    var s := NatToString(n);
    if n >= 10 {
      NumeralValueOfNatToString(n / 10);
      assert s[..|s| - 1] == NatToString(n / 10);
    }
  }

  /** `String` is injective on integers, because `parseInt` inverts it. */
  lemma IntToStringInjective(a: int, b: int)
    requires IntToString(a) == IntToString(b)
    ensures a == b
  {
    ParseIntOfIntToString(a);
    ParseIntOfIntToString(b);
  }

  // ---------------------------------------------------------------------
  // Ordering of strings

  /** `a < b` on JavaScript strings: lexicographic by character code, a
      proper prefix coming first. For the ASCII keys this model sorts, code
      points and UTF-16 code units coincide. */
  predicate LexLess(a: string, b: string) {
    if |a| == 0 then |b| > 0
    else if |b| == 0 then false
    else if a[0] != b[0] then a[0] < b[0]
    else LexLess(a[1..], b[1..])
  }

  lemma {:induction false} LexLessIrreflexive(a: string)
    ensures !LexLess(a, a)
  {
    if |a| > 0 {
      LexLessIrreflexive(a[1..]);
    }
  }

  lemma {:induction false} LexLessTransitive(a: string, b: string, c: string)
    requires LexLess(a, b) && LexLess(b, c)
    ensures LexLess(a, c)
  {
    if |a| > 0 && |b| > 0 && |c| > 0 && a[0] == b[0] && b[0] == c[0] {
      LexLessTransitive(a[1..], b[1..], c[1..]);
    }
  }

  lemma {:induction false} LexLessTotal(a: string, b: string)
    requires a != b
    ensures LexLess(a, b) || LexLess(b, a)
  {
    if |a| > 0 && |b| > 0 && a[0] == b[0] {
      assert a[1..] != b[1..] by {
        assert a == [a[0]] + a[1..] && b == [b[0]] + b[1..];
      }
      LexLessTotal(a[1..], b[1..]);
    }
  }

  lemma {:induction false} LexLessAsymmetric(a: string, b: string)
    requires LexLess(a, b)
    ensures !LexLess(b, a)
  {
    if |a| > 0 && |b| > 0 && a[0] == b[0] {
      LexLessAsymmetric(a[1..], b[1..]);
    }
  }

  /** A numeral `String` writes for a non-negative number is read back as
      that number. */
  lemma NatToStringValue(n: nat)
    ensures IsNumeral(IntToString(n), 10) && NumeralValue(IntToString(n), 10) == n
  {
    NumeralValueOfNatToString(n);
  }

  /** The two-digit field of 0..99 is a numeral for its own value. */
  lemma TwoDigitsValue(n: int)
    requires 0 <= n < 100
    ensures IsNumeral(TwoDigits(n), 10) && NumeralValue(TwoDigits(n), 10) == n
  {
    TwoDigitsIs(n);
    TwoDigitNumeral(DigitChar(n / 10), DigitChar(n % 10));
    assert (n / 10) * 10 + n % 10 == n;
  }

  lemma TwoDigitNumeral(hi: char, lo: char)
    requires IsDigit(hi) && IsDigit(lo)
    ensures IsNumeral([hi, lo], 10)
    ensures NumeralValue([hi, lo], 10) == DigitValue(hi, 10) * 10 + DigitValue(lo, 10)
  {
    var s := [hi, lo];
    assert s[..1] == [hi];
    assert NumeralValue([hi], 10) == DigitValue(hi, 10) by {
      assert [hi][..0] == [];
    }
    assert NumeralValue(s, 10) == NumeralValue(s[..1], 10) * 10 + DigitValue(lo, 10);
  }

  /** `trim` leaves a string alone when it neither starts nor ends with
      white space. */
  lemma TrimUnchanged(s: string)
    requires |s| > 0 && !IsSpace(s[0]) && !IsSpace(s[|s| - 1])
    ensures Trim(s) == s
  {
  }

  /** No numeral `String` writes starts or ends with white space. */
  lemma TrimIntToString(n: int)
    ensures Trim(IntToString(n)) == IntToString(n)
  {
    var s := IntToString(n);
    var m := if n < 0 then -n else n;
    assert IsNumeral(NatToString(m), 10);
    assert |NatToString(m)| >= 1;
    if n < 0 {
      assert s[0] == '-' && s[|s| - 1] == NatToString(m)[|NatToString(m)| - 1];
    }
    TrimUnchanged(s);
  }

  // ---------------------------------------------------------------------
  // split

  /** `s.split(sep)` for a one-character separator. */
  function Split(s: string, sep: char): (parts: seq<string>)
    ensures |parts| >= 1
  {
    if |s| == 0 then [""]
    else
      var rest := Split(s[1..], sep);
      if s[0] == sep then [""] + rest else [[s[0]] + rest[0]] + rest[1..]
  }

  /** A string without the separator splits into itself. */
  lemma {:induction false} SplitNone(a: string, sep: char)
    requires sep !in a
    ensures Split(a, sep) == [a]
  {
    if |a| > 0 {
      SplitNone(a[1..], sep);
      assert [a[0]] + a[1..] == a;
    }
  }

  /** Splitting at the first separator peels off the part before it. */
  lemma {:induction false} SplitJoin(a: string, b: string, sep: char)
    requires sep !in a
    ensures Split(a + [sep] + b, sep) == [a] + Split(b, sep)
  {
    var s := a + [sep] + b;
    if |a| == 0 {
      assert s[1..] == b;
    } else {
      assert s[1..] == a[1..] + [sep] + b;
      SplitJoin(a[1..], b, sep);
      assert [a[0]] + a[1..] == a;
    }
  }

  /** Three separator-free fields joined by the separator split back into
      those fields. */
  lemma SplitThree(a: string, b: string, c: string, sep: char)
    requires sep !in a && sep !in b && sep !in c
    ensures Split(a + [sep] + b + [sep] + c, sep) == [a, b, c]
  {
    assert a + [sep] + b + [sep] + c == a + [sep] + (b + [sep] + c);
    SplitJoin(a, b + [sep] + c, sep);
    SplitJoin(b, c, sep);
    SplitNone(c, sep);
  }

  // ---------------------------------------------------------------------
  // Case-insensitive substring search

  /** ASCII lower-casing of one character. */
  function LowerChar(c: char): char {
    if 'A' <= c <= 'Z' then (c as int + 32) as char else c
  }

  function Lower(s: string): (r: string)
    ensures |r| == |s| && forall i :: 0 <= i < |s| ==> r[i] == LowerChar(s[i])
  {
    seq(|s|, i requires 0 <= i < |s| => LowerChar(s[i]))
  }

  /** `needle` occurs in `hay` starting at position `i`. */
  predicate OccursAt(needle: string, hay: string, i: int) {
    0 <= i <= |hay| - |needle| && hay[i..i + |needle|] == needle
  }

  predicate IsSubstring(needle: string, hay: string) {
    exists i | 0 <= i <= |hay| - |needle| :: OccursAt(needle, hay, i)
  }

  /** Prisma's `contains` with `mode: 'insensitive'`, with case folding
      restricted to ASCII letters. */
  predicate ContainsInsensitive(hay: string, needle: string) {
    IsSubstring(Lower(needle), Lower(hay))
  }
}
