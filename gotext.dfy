/** The parts of Go's standard library that the scanner's core relies on:
    strings.Split and strings.Join, strconv.Atoi and strconv.Itoa,
    encoding/hex, and the ASCII behaviour of strings.ToUpper.
    A Go string is a sequence of bytes; here it is a `string` holding one
    char per byte. */
module GoText {
  import opened Results

  /** Go's byte (uint8). */
  type byte = x: int | 0 <= x < 256

  const MaxInt64: int := 0x7fff_ffff_ffff_ffff
  const MinInt64: int := -0x8000_0000_0000_0000

  // ---------------------------------------------------------------------
  // strings.Split (with a one-character separator) and strings.Join

  /** The position of the first occurrence of c in s. */
  function IndexOf(s: string, c: char): (i: nat)
    requires c in s
    ensures i < |s| && s[i] == c && c !in s[..i]
  {
    if s[0] == c then 0
    else
      assert s == [s[0]] + s[1..];
      var j := IndexOf(s[1..], c);
      assert s[..j + 1] == [s[0]] + s[1..][..j];
      j + 1
  }

  /** strings.Split(s, string(sep)): the pieces between the separators;
      an empty input gives one empty piece. */
  function Split(s: string, sep: char): (parts: seq<string>)
    ensures |parts| >= 1
    decreases |s|
  {
    if sep !in s then [s]
    else
      var i := IndexOf(s, sep);
      [s[..i]] + Split(s[i + 1..], sep)
  }

  /** strings.Join(parts, sep). */
  function Join(parts: seq<string>, sep: string): string
    decreases |parts|
  {
    if parts == [] then []
    else if |parts| == 1 then parts[0]
    else parts[0] + sep + Join(parts[1..], sep)
  }

  /** No piece contains the separator. */
  lemma {:induction false} SplitPieces(s: string, sep: char)
    ensures forall i :: 0 <= i < |Split(s, sep)| ==> sep !in Split(s, sep)[i]
    decreases |s|
  {
    if sep in s {
      var i := IndexOf(s, sep);
      SplitPieces(s[i + 1..], sep);
    }
  }

  /** Joining the pieces with the separator gives the input back. */
  lemma {:induction false} JoinSplit(s: string, sep: char)
    ensures Join(Split(s, sep), [sep]) == s
    decreases |s|
  {
    if sep in s {
      var i := IndexOf(s, sep);
      var rest := s[i + 1..];
      JoinSplit(rest, sep);
      JoinCons(s[..i], Split(rest, sep), [sep]);
      Around(s, i);
    }
  }

  lemma JoinCons(x: string, parts: seq<string>, sep: string)
    requires |parts| >= 1
    ensures Join([x] + parts, sep) == x + sep + Join(parts, sep)
  {
    assert ([x] + parts)[1..] == parts;
  }

  /** A string without the separator is one piece. */
  lemma SplitNoSep(s: string, sep: char)
    requires sep !in s
    ensures Split(s, sep) == [s]
  {
  }

  /** Splitting at one separator splits the pieces on either side
      independently. */
  lemma {:induction false} SplitAppend(a: string, sep: char, b: string)
    ensures Split(a + [sep] + b, sep) == Split(a, sep) + Split(b, sep)
    decreases |a|
  {
    if sep in a {
      var i := IndexOf(a, sep);
      SplitAppend(a[i + 1..], sep, b);
      SplitAppendStep(a, sep, b, i);
    } else {
      SplitAppendLast(a, sep, b);
    }
  }

  /** The inductive step of SplitAppend: the first separator lies in a. */
  lemma SplitAppendStep(a: string, sep: char, b: string, i: nat)
    requires i < |a| && a[i] == sep && sep !in a[..i]
    requires Split(a[i + 1..] + [sep] + b, sep) == Split(a[i + 1..], sep) + Split(b, sep)
    ensures Split(a + [sep] + b, sep) == Split(a, sep) + Split(b, sep)
  {
    var s := a + [sep] + b;
    var t := a[i + 1..];
    calc {
      Split(s, sep);
    == { assert s[..i] == a[..i] && s[i] == sep;
         SplitAt(s, sep, i);
         SliceAppend(a + [sep], b, i + 1);
         SliceAppend(a, [sep], i + 1); }
      [a[..i]] + Split(t + [sep] + b, sep);
    ==
      [a[..i]] + (Split(t, sep) + Split(b, sep));
    == { ConsAssoc(a[..i], Split(t, sep), Split(b, sep)); }
      ([a[..i]] + Split(t, sep)) + Split(b, sep);
    == { SplitAt(a, sep, i); }
      Split(a, sep) + Split(b, sep);
    }
  }

  lemma Around(s: string, i: nat)
    requires i < |s|
    ensures s == s[..i] + [s[i]] + s[i + 1..]
  {
  }

  lemma SliceAppend(x: string, y: string, i: nat)
    requires i <= |x|
    ensures (x + y)[i..] == x[i..] + y
  {
  }

  lemma ConsAssoc(h: string, p: seq<string>, q: seq<string>)
    ensures [h] + (p + q) == ([h] + p) + q
  {
  }

  /** The base case of SplitAppend: a holds no separator. */
  lemma SplitAppendLast(a: string, sep: char, b: string)
    requires sep !in a
    ensures Split(a + [sep] + b, sep) == Split(a, sep) + Split(b, sep)
  {
    var s := a + [sep] + b;
    assert s[..|a|] == a && s[|a|] == sep;
    SplitAt(s, sep, |a|);
    assert s[|a| + 1..] == b;
    SplitNoSep(a, sep);
  }

  /** Splitting at the first separator. */
  lemma SplitAt(s: string, sep: char, i: nat)
    requires i < |s| && s[i] == sep && sep !in s[..i]
    ensures Split(s, sep) == [s[..i]] + Split(s[i + 1..], sep)
  {
    IndexUnique(s, sep, i);
  }

  /** The first occurrence is the only index with c that has no c before it. */
  lemma IndexUnique(s: string, c: char, i: nat)
    requires i < |s| && s[i] == c && c !in s[..i]
    ensures IndexOf(s, c) == i
  {
  }

  // ---------------------------------------------------------------------
  // strconv.Atoi and strconv.Itoa (decimal, 64-bit int)

  predicate IsDigit(ch: char) { '0' <= ch <= '9' }

  predicate AllDigits(s: string) { forall i :: 0 <= i < |s| ==> IsDigit(s[i]) }

  function DigitValue(ch: char): nat
    requires IsDigit(ch)
  {
    ch as int - '0' as int
  }

  function DigitChar(d: nat): char
    requires d < 10
  {
    ('0' as int + d) as char
  }

  /** The value of a string of decimal digits, most significant first. */
  function DecimalValue(s: string): nat
    requires AllDigits(s)
    decreases |s|
  {
    if s == [] then 0 else DecimalValue(s[..|s| - 1]) * 10 + DigitValue(s[|s| - 1])
  }

  /** strconv.Atoi: an optional sign followed by at least one decimal digit,
      whose value fits in a 64-bit int; anything else is an error (None). */
  function Atoi(s: string): (r: Option<int>)
    ensures r.Some? ==> MinInt64 <= r.value <= MaxInt64
  {
    var signed := |s| > 0 && (s[0] == '+' || s[0] == '-');
    var digits := if signed then s[1..] else s;
    if digits == [] || !AllDigits(digits) then None
    else
      var v: int := if signed && s[0] == '-' then 0 - DecimalValue(digits) else DecimalValue(digits);
      if MinInt64 <= v <= MaxInt64 then Some(v) else None
  }

  /** The decimal digits of n, without leading zeros. */
  function Digits(n: nat): string
    decreases n
  {
    if n < 10 then [DigitChar(n)] else Digits(n / 10) + [DigitChar(n % 10)]
  }

  /** strconv.Itoa. */
  function Itoa(n: int): string
  {
    if n < 0 then "-" + Digits(-n) else Digits(n)
  }

  /** Digits(n) is a canonical decimal rendering of n. */
  lemma {:induction false} DigitsValue(n: nat)
    ensures Digits(n) != [] && AllDigits(Digits(n))
    ensures DecimalValue(Digits(n)) == n
    ensures Digits(n)[0] == '0' ==> n == 0
    decreases n
  {
    if n >= 10 {
      DigitsValue(n / 10);
      var d := Digits(n);
      assert d[..|d| - 1] == Digits(n / 10);
    }
  }

  /** Atoi undoes Itoa on every 64-bit int. */
  lemma AtoiItoa(n: int)
    requires MinInt64 <= n <= MaxInt64
    ensures Atoi(Itoa(n)) == Some(n)
  {
    if n < 0 {
      AtoiNegative(n);
    } else {
      AtoiNatural(n);
    }
  }

  lemma AtoiNegative(n: int)
    requires MinInt64 <= n < 0
    ensures Atoi(Itoa(n)) == Some(n)
  {
    DigitsValue(-n);
    AtoiMinus(Digits(-n));
  }

  lemma AtoiNatural(n: nat)
    requires n <= MaxInt64
    ensures Atoi(Itoa(n)) == Some(n)
  {
    DigitsValue(n);
    AtoiPlain(Digits(n));
  }

  /** A '-' followed by digits reads as the negated value, when in range. */
  lemma AtoiMinus(d: string)
    requires d != [] && AllDigits(d) && DecimalValue(d) <= -MinInt64
    ensures Atoi("-" + d) == Some(0 - DecimalValue(d))
  {
    assert ("-" + d)[1..] == d;
  }

  /** Unsigned digits read as their value, when in range. */
  lemma AtoiPlain(d: string)
    requires d != [] && AllDigits(d) && DecimalValue(d) <= MaxInt64
    ensures Atoi(d) == Some(DecimalValue(d))
  {
    assert IsDigit(d[0]);
  }

  lemma {:induction false} DecimalPositive(s: string)
    requires s != [] && AllDigits(s) && s[0] != '0'
    ensures DecimalValue(s) >= 1
    decreases |s|
  {
    if |s| > 1 {
      DecimalPositive(s[..|s| - 1]);
    }
  }

  /** Itoa undoes Atoi on a digit string without leading zeros. */
  lemma {:induction false} ItoaAtoi(s: string)
    requires s != [] && AllDigits(s) && (s[0] == '0' ==> |s| == 1)
    ensures Digits(DecimalValue(s)) == s
    decreases |s|
  {
    if |s| > 1 {
      var init := s[..|s| - 1];
      ItoaAtoi(init);
      DecimalPositive(init);
      var n := DecimalValue(s);
      assert n / 10 == DecimalValue(init) && n % 10 == DigitValue(s[|s| - 1]);
      assert s == init + [s[|s| - 1]];
    }
  }

  /** A leading zero does not change the value of a digit string. */
  lemma {:induction false} LeadingZero(s: string)
    requires AllDigits(s)
    ensures AllDigits("0" + s) && DecimalValue("0" + s) == DecimalValue(s)
    decreases |s|
  {
    if s != [] {
      LeadingZero(s[..|s| - 1]);
      assert ("0" + s)[..|s|] == "0" + s[..|s| - 1];
    }
  }

  /** Atoi ignores a '+' sign and leading zeros. */
  lemma AtoiNormalises(s: string)
    requires s != [] && AllDigits(s)
    ensures Atoi("+" + s) == Atoi(s)
    ensures Atoi("0" + s) == Atoi(s)
  {
    assert ("+" + s)[1..] == s;
    LeadingZero(s);
  }

  // ---------------------------------------------------------------------
  // ASCII case mapping (strings.ToUpper/ToLower on hex digits)

  function UpperChar(c: char): char
  {
    if 'a' <= c <= 'z' then (c as int - 32) as char else c
  }

  function LowerChar(c: char): char
  {
    if 'A' <= c <= 'Z' then (c as int + 32) as char else c
  }

  function UpperAll(s: string): (r: string)
    ensures |r| == |s|
  {
    seq(|s|, i requires 0 <= i < |s| => UpperChar(s[i]))
  }

  function LowerAll(s: string): (r: string)
    ensures |r| == |s|
  {
    seq(|s|, i requires 0 <= i < |s| => LowerChar(s[i]))
  }

  // ---------------------------------------------------------------------
  // encoding/hex

  function HexDigit(n: nat): char
    requires n < 16
  {
    if n < 10 then ('0' as int + n) as char else ('a' as int + n - 10) as char
  }

  predicate IsHexChar(c: char)
  {
    '0' <= c <= '9' || 'a' <= c <= 'f' || 'A' <= c <= 'F'
  }

  predicate IsLowerHex(s: string)
  {
    forall i :: 0 <= i < |s| ==> '0' <= s[i] <= '9' || 'a' <= s[i] <= 'f'
  }

  function HexValue(c: char): (v: nat)
    requires IsHexChar(c)
    ensures v < 16
  {
    if '0' <= c <= '9' then c as int - '0' as int
    else if 'a' <= c <= 'f' then c as int - 'a' as int + 10
    else c as int - 'A' as int + 10
  }

  /** hex.EncodeToString: two lower-case hex digits per byte. */
  function HexEncode(b: seq<byte>): (h: string)
    ensures |h| == 2 * |b|
    ensures IsLowerHex(h)
    decreases |b|
  {
    if b == [] then [] else [HexDigit(b[0] / 16), HexDigit(b[0] % 16)] + HexEncode(b[1..])
  }

  /** hex.DecodeString: fails (None) on an odd length or on a character
      that is not a hex digit of either case. */
  function HexDecode(s: string): Option<seq<byte>>
    decreases |s|
  {
    if s == [] then Some([])
    else if |s| == 1 || !IsHexChar(s[0]) || !IsHexChar(s[1]) then None
    else
      match HexDecode(s[2..])
      case None => None
      case Some(rest) => Some([HexValue(s[0]) * 16 + HexValue(s[1])] + rest)
  }

  /** What DecodeString accepts: even length, hex digits only (the empty
      string included). */
  predicate IsHexText(s: string)
  {
    |s| % 2 == 0 && forall i :: 0 <= i < |s| ==> IsHexChar(s[i])
  }

  lemma {:induction false} HexDecodeAccepts(s: string)
    ensures HexDecode(s).Some? <==> IsHexText(s)
    decreases |s|
  {
    if |s| >= 2 {
      HexDecodeAccepts(s[2..]);
      if IsHexChar(s[0]) && IsHexChar(s[1]) && IsHexText(s[2..]) {
        assert forall i :: 0 <= i < |s| ==> IsHexChar(s[i]) by {
          forall i | 2 <= i < |s| ensures IsHexChar(s[i]) {
            assert s[i] == s[2..][i - 2];
          }
        }
      }
      if IsHexText(s) {
        assert forall i :: 0 <= i < |s| - 2 ==> IsHexChar(s[2..][i]) by {
          forall i | 0 <= i < |s| - 2 ensures IsHexChar(s[2..][i]) {
            assert s[2..][i] == s[i + 2];
          }
        }
      }
    }
  }

  lemma HexDigitValue(c: char)
    requires IsHexChar(c)
    ensures HexDigit(HexValue(c)) == LowerChar(c)
  {
  }

  /** A byte's two hex digits read back as the byte. */
  lemma ByteDigits(x: nat)
    requires x < 256
    ensures HexValue(HexDigit(x / 16)) * 16 + HexValue(HexDigit(x % 16)) == x
  {
    HexDigitInverse(x / 16);
    HexDigitInverse(x % 16);
  }

  lemma HexDigitInverse(n: nat)
    requires n < 16
    ensures IsHexChar(HexDigit(n)) && HexValue(HexDigit(n)) == n
  {
  }

  /** Two hex digit values make a byte whose halves are those values. */
  lemma DigitsByte(hi: nat, lo: nat)
    requires hi < 16 && lo < 16
    ensures hi * 16 + lo < 256 && (hi * 16 + lo) / 16 == hi && (hi * 16 + lo) % 16 == lo
  {
  }

  /** Decoding what EncodeToString produced gives the bytes back. */
  lemma {:induction false} HexRoundTrip(b: seq<byte>)
    ensures HexDecode(HexEncode(b)) == Some(b)
    decreases |b|
  {
    if b != [] {
      HexRoundTrip(b[1..]);
      var h := HexEncode(b);
      assert h[2..] == HexEncode(b[1..]);
      ByteDigits(b[0] as nat);
      assert HexValue(h[0]) * 16 + HexValue(h[1]) == b[0] as int;
      assert [b[0]] + b[1..] == b;
    }
  }

  /** Encoding what DecodeString accepted gives the text back in lower case. */
  lemma {:induction false} HexReencode(s: string)
    requires HexDecode(s).Some?
    ensures HexEncode(HexDecode(s).value) == LowerAll(s)
    decreases |s|
  {
    if s != [] {
      HexReencode(s[2..]);
      var b := HexDecode(s).value;
      var x := HexValue(s[0]) * 16 + HexValue(s[1]);
      assert b[0] == x && b[1..] == HexDecode(s[2..]).value;
      DigitsByte(HexValue(s[0]), HexValue(s[1]));
      HexDigitValue(s[0]);
      HexDigitValue(s[1]);
      assert LowerAll(s) == [LowerChar(s[0]), LowerChar(s[1])] + LowerAll(s[2..]);
    }
  }

  /** string(b) for a byte slice b. */
  function BytesToText(b: seq<byte>): (s: string)
    ensures |s| == |b|
  {
    seq(|b|, i requires 0 <= i < |b| => b[i] as char)
  }
}
