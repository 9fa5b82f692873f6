/**
 Hex numbers and byte strings (mod/primitives/pkg/hex). A character stands for one byte of the
 Go string. encoding/hex, strconv.AppendUint and big.Int are library code, given here by their
 meaning.
 */
module Hex {
  import opened Bytes

  datatype HexError =
    | EmptyString | MissingPrefix | OddLength | EmptyNumber | LeadingZero
    | Uint64Range | Big256Range | InvalidString | WrongLength

  const BAD_NIBBLE: nat := U64_LIMIT - 1
  const BYTES_PER_64_BITS: nat := 16
  const BYTES_PER_256_BITS: nat := 64

  // ------------------------------------------------------------ digits

  /** decodeNibble */
  function DecodeNibble(c: char): nat {
    if '0' <= c <= '9' then c as int - '0' as int
    else if 'A' <= c <= 'F' then c as int - ('A' as int - 10)
    else if 'a' <= c <= 'f' then c as int - ('a' as int - 10)
    else BAD_NIBBLE
  }

  predicate IsDigit(c: char) {
    DecodeNibble(c) != BAD_NIBBLE
  }

  predicate AllDigits(s: string) {
    forall i :: 0 <= i < |s| ==> IsDigit(s[i])
  }

  function Digit(n: nat): char
    requires n < 16
  {
    if n < 10 then ('0' as int + n) as char else ('a' as int + n - 10) as char
  }

  function LowerDigit(c: char): char {
    if 'A' <= c <= 'F' then (c as int - 'A' as int + 'a' as int) as char else c
  }

  function Lower(s: string): (t: string)
    ensures |t| == |s|
  {
    if s == [] then [] else Lower(s[..|s| - 1]) + [LowerDigit(s[|s| - 1])]
  }

  /** Which characters are digits, and what each stands for, by their codes. */
  lemma {:induction false} DigitTable(c: char)
    ensures IsDigit(c) <==> '0' <= c <= '9' || 'A' <= c <= 'F' || 'a' <= c <= 'f'
    ensures '0' <= c <= '9' ==> DecodeNibble(c) == c as int - 48
    ensures 'A' <= c <= 'F' ==> DecodeNibble(c) == c as int - 55 && LowerDigit(c) as int == c as int + 32
    ensures 'a' <= c <= 'f' ==> DecodeNibble(c) == c as int - 87
    ensures !('A' <= c <= 'F') ==> LowerDigit(c) == c
  {
  }

  lemma {:induction false} LowerAt(s: string, i: nat)
    requires i < |s|
    ensures Lower(s)[i] == LowerDigit(s[i])
    decreases |s|
  {
    if i < |s| - 1 {
      LowerAt(s[..|s| - 1], i);
    }
  }

  lemma {:induction false} DigitRoundTrip(n: nat)
    requires n < 16
    ensures DecodeNibble(Digit(n)) == n && LowerDigit(Digit(n)) == Digit(n)
  {
  }

  lemma {:induction false} NibbleCanonical(c: char)
    requires IsDigit(c)
    ensures DecodeNibble(c) < 16 && Digit(DecodeNibble(c)) == LowerDigit(c)
    ensures DecodeNibble(c) == 0 <==> c == '0'
  {
  }

  function Pow16(n: nat): (p: nat)
    ensures 1 <= p
  {
    if n == 0 then 1 else 16 * Pow16(n - 1)
  }

  lemma {:induction false} Pow16Add(a: nat, b: nat)
    ensures Pow16(a + b) == Pow16(a) * Pow16(b)
  {
    if a == 0 {
    } else {
      Pow16Add(a - 1, b);
    }
  }

  lemma {:induction false} Pow16Monotone(a: nat, b: nat)
    requires a <= b
    ensures Pow16(a) <= Pow16(b)
    decreases b
  {
    if a < b {
      Pow16Monotone(a, b - 1);
    }
  }

  /** The base-16 value of a digit string, most significant digit first. */
  function HexValue(s: string): nat
    requires AllDigits(s)
  {
    if s == [] then 0 else HexValue(s[..|s| - 1]) * 16 + DecodeNibble(s[|s| - 1])
  }

  lemma {:induction false} HexValueBound(s: string)
    requires AllDigits(s)
    ensures HexValue(s) < Pow16(|s|)
    decreases |s|
  {
    if s == [] {
    } else {
      HexValueBound(s[..|s| - 1]);
      NibbleCanonical(s[|s| - 1]);
    }
  }

  /** Without a leading zero, the value also has a lower bound. */
  lemma {:induction false} HexValueLowerBound(s: string)
    requires AllDigits(s) && s != [] && s[0] != '0'
    ensures Pow16(|s| - 1) <= HexValue(s)
    decreases |s|
  {
    NibbleCanonical(s[0]);
    if |s| == 1 {
      assert HexValue(s[..0]) == 0;
    } else {
      HexValueLowerBound(s[..|s| - 1]);
    }
  }

  lemma {:induction false} HexValueSnoc(s: string, c: char)
    requires AllDigits(s) && IsDigit(c)
    ensures AllDigits(s + [c]) && HexValue(s + [c]) == HexValue(s) * 16 + DecodeNibble(c)
    ensures HexValue([]) == 0
  {
    assert (s + [c])[..|s|] == s;
  }

  lemma {:induction false} Regroup(v: nat, p: nat, f: nat, d: nat)
    ensures (v * p + f) * 16 + d == v * (16 * p) + (f * 16 + d)
  {
  }

  lemma {:induction false} HexValueConcat(a: string, b: string)
    requires AllDigits(a) && AllDigits(b)
    ensures AllDigits(a + b)
    ensures HexValue(a + b) == HexValue(a) * Pow16(|b|) + HexValue(b)
    decreases |b|
  {
    if b == [] {
      assert a + b == a;
    } else {
      var front, c := b[..|b| - 1], b[|b| - 1];
      HexValueConcat(a, front);
      HexValueSnoc(a + front, c);
      assert a + b == a + front + [c];
      Regroup(HexValue(a), Pow16(|front|), HexValue(front), DecodeNibble(c));
    }
  }

  // ------------------------------------------------------------ formats

  predicate Has0xPrefix(s: string) {
    |s| >= 2 && s[0] == '0' && (s[1] == 'x' || s[1] == 'X')
  }

  function FormatAndValidateNumber(input: string): Result<string, HexError> {
    if |input| == 0 then Err(EmptyString)
    else if !Has0xPrefix(input) then Err(MissingPrefix)
    else if |input| == 2 then Err(EmptyNumber)
    else if |input| > 3 && input[2] == '0' then Err(LeadingZero)
    else Ok(input[2..])
  }

  /** An empty text is allowed and stands for no bytes. */
  function FormatAndValidateText(input: string): Result<string, HexError> {
    if |input| == 0 then Ok([])
    else if !Has0xPrefix(input) then Err(MissingPrefix)
    else if |input| % 2 != 0 then Err(OddLength)
    else Ok(input[2..])
  }

  /** A number as the parsers accept it: a prefix, then digits without a leading zero. */
  predicate WellFormedNumber(s: string) {
    FormatAndValidateNumber(s).Ok? && AllDigits(s[2..])
  }

  /** What the number format is, character by character, and which error names what is missing. */
  lemma {:induction false} NumberFormat(s: string)
    ensures FormatAndValidateNumber(s).Ok? <==>
      3 <= |s| && s[0] == '0' && (s[1] == 'x' || s[1] == 'X') && (3 < |s| ==> s[2] != '0')
    ensures FormatAndValidateNumber(s).Ok? ==> FormatAndValidateNumber(s).value == s[2..]
    ensures |s| == 0 ==> FormatAndValidateNumber(s) == Err(EmptyString)
    ensures |s| == 1 || (2 <= |s| && !(s[0] == '0' && (s[1] == 'x' || s[1] == 'X'))) ==>
      FormatAndValidateNumber(s) == Err(MissingPrefix)
    ensures s == "0x" || s == "0X" ==> FormatAndValidateNumber(s) == Err(EmptyNumber)
    ensures WellFormedNumber(s) <==>
      FormatAndValidateNumber(s).Ok? && forall i :: 2 <= i < |s| ==> IsDigit(s[i])
  {
    if 2 <= |s| {
      assert forall i :: 2 <= i < |s| ==> s[i] == s[2..][i - 2];
    }
  }

  /** What the text format is: nothing, or a prefix and an even number of characters. */
  lemma {:induction false} TextFormat(s: string)
    ensures FormatAndValidateText(s).Ok? <==>
      s == [] || (2 <= |s| && s[0] == '0' && (s[1] == 'x' || s[1] == 'X') && |s| % 2 == 0)
    ensures FormatAndValidateText(s).Ok? && s != [] ==> FormatAndValidateText(s).value == s[2..]
    ensures FormatAndValidateText([]) == Ok([])
  {
  }

  // ------------------------------------------------------------ printing

  /** Minimal lower-case digits, as big.Int.Text(16) and strconv.AppendUint give them. */
  function ToHex(n: nat): (s: string)
    ensures s != []
  {
    if n < 16 then [Digit(n)] else ToHex(n / 16) + [Digit(n % 16)]
  }

  lemma {:induction false} ToHexIsDigits(n: nat)
    ensures AllDigits(ToHex(n)) && HexValue(ToHex(n)) == n && Lower(ToHex(n)) == ToHex(n)
    ensures ToHex(n)[0] == '0' ==> n == 0
    decreases n
  {
    DigitRoundTrip(n % 16);
    if n < 16 {
      assert ToHex(n)[..0] == [];
    } else {
      ToHexIsDigits(n / 16);
      var s := ToHex(n);
      assert s[..|s| - 1] == ToHex(n / 16);
    }
  }

  /** A number has at most `k` digits exactly when it is below 16^k. */
  lemma {:induction false} ToHexLength(n: nat, k: nat)
    requires 0 < k
    ensures |ToHex(n)| <= k <==> n < Pow16(k)
  {
    ToHexIsDigits(n);
    HexValueBound(ToHex(n));
    if |ToHex(n)| <= k {
      Pow16Monotone(|ToHex(n)|, k);
    } else {
      if n > 0 {
        HexValueLowerBound(ToHex(n));
      }
      Pow16Monotone(k, |ToHex(n)| - 1);
    }
  }

  /** Printing a parsed number gives back its digits in lower case. */
  lemma {:induction false} ToHexOfValue(s: string)
    requires AllDigits(s) && s != [] && (|s| > 1 ==> s[0] != '0')
    ensures ToHex(HexValue(s)) == Lower(s)
    decreases |s|
  {
    var front, c := s[..|s| - 1], s[|s| - 1];
    NibbleCanonical(c);
    if |s| == 1 {
      assert Lower(s) == [LowerDigit(c)];
    } else {
      ToHexOfValue(front);
      HexValueLowerBound(front);
      DivUnique(HexValue(s), 16, HexValue(front), DecodeNibble(c));
    }
  }

  /** FromBigInt; a negative argument, which the precondition excludes, loses its sign. */
  function FromBigInt(n: int): string {
    if n == 0 then "0x0" else if n > 0 then "0x" + ToHex(n) else "0x" + ToHex(-n)
  }

  /** MarshalText and FromUint64 */
  function MarshalText(b: U64): string {
    "0x" + ToHex(b)
  }

  lemma {:induction false} PrintedIsWellFormed(n: nat)
    ensures FormatAndValidateNumber("0x" + ToHex(n)) == Ok(ToHex(n))
    ensures WellFormedNumber("0x" + ToHex(n))
    ensures FromBigInt(n) == "0x" + ToHex(n)
  {
    ToHexIsDigits(n);
    var s := "0x" + ToHex(n);
    assert s[2..] == ToHex(n);
    assert n == 0 ==> ToHex(n) == "0";
    assert n == 0 ==> |ToHex(n)| == 1;
  }

  // ------------------------------------------------------------ big integers

  /** What ToBigInt must return: the base-16 value of up to 64 digits. */
  function BigIntOf(s: string): Result<nat, HexError> {
    match FormatAndValidateNumber(s)
    case Err(e) => Err(e)
    case Ok(raw) =>
      if |raw| > BYTES_PER_256_BITS then Err(Big256Range)
      else if !AllDigits(raw) then Err(InvalidString)
      else Ok(HexValue(raw))
  }

  /** The integer whose words, least significant first, hold `nibbles` digits each (big.Int.SetBits). */
  function WordsValue(words: seq<nat>, nibbles: nat): nat {
    if words == [] then 0
    else WordsValue(words[..|words| - 1], nibbles) + words[|words| - 1] * Pow16(nibbles * (|words| - 1))
  }

  /** One word: the inner loop, in arithmetic modulo the word size. */
  method ParseWord(raw: string, start: nat, end: nat, nibbles: nat) returns (r: Result<nat, HexError>)
    requires start <= end <= |raw| && end - start <= nibbles
    ensures r.Ok? <==> AllDigits(raw[start..end])
    ensures r.Err? ==> r.error == InvalidString
    ensures r.Ok? ==> r.value == HexValue(raw[start..end]) < Pow16(nibbles)
  {
    var word := 0;
    for ri := start to end
      invariant AllDigits(raw[start..ri]) && word == HexValue(raw[start..ri])
    {
      var nib := DecodeNibble(raw[ri]);
      assert raw[start..end][ri - start] == raw[ri];
      if nib == BAD_NIBBLE {
        return Err(InvalidString);
      }
      assert raw[start..ri + 1] == raw[start..ri] + [raw[ri]];
      assert raw[start..ri + 1][..ri - start] == raw[start..ri];
      HexValueBound(raw[start..ri + 1]);
      Pow16Monotone(ri + 1 - start, nibbles);
      ModNoOverflow(word * 16, Pow16(nibbles));
      ModNoOverflow(word * 16 + nib, Pow16(nibbles));
      word := word * 16 % Pow16(nibbles);
      word := (word + nib) % Pow16(nibbles);
    }
    HexValueBound(raw[start..end]);
    Pow16Monotone(end - start, nibbles);
    r := Ok(word);
  }

  lemma {:induction false} ModNoOverflow(x: nat, m: nat)
    requires x < m
    ensures x % m == x
  {
    DivUnique(x, m, 0, x);
  }

  lemma {:induction false} AppendWord(raw: string, start: nat, end: nat, words: seq<nat>, nibbles: nat)
    requires start <= end <= |raw| && AllDigits(raw[start..])
    ensures AllDigits(raw[end..]) && AllDigits(raw[start..end])
    ensures |raw| - end == nibbles * |words| && WordsValue(words, nibbles) == HexValue(raw[end..]) ==>
      WordsValue(words + [HexValue(raw[start..end])], nibbles) == HexValue(raw[start..])
  {
    var s := raw[start..];
    assert raw[start..end] == s[..end - start] && raw[end..] == s[end - start..];
    assert s == raw[start..end] + raw[end..];
    HexValueConcat(raw[start..end], raw[end..]);
    assert (words + [HexValue(raw[start..end])])[..|words|] == words;
  }

  /** Word `i` starts a whole word below the previous one; only the last word is shorter. */
  lemma {:induction false} WordSchedule(length: nat, nibbles: nat, i: nat)
    requires 0 < nibbles && i <= length / nibbles
    ensures nibbles * i <= length
    ensures i < length / nibbles ==> nibbles * (i + 1) <= length
    ensures i == length / nibbles ==> length - nibbles * i < nibbles
  {
    var q := length / nibbles;
    assert length == q * nibbles + length % nibbles;
    MulMonotone(i, q, nibbles);
    if i < q {
      MulMonotone(i + 1, q, nibbles);
    }
  }

  /** One round of the word loop. */
  method ParseNextWord(raw: string, end: nat, words: seq<nat>, nibbles: nat)
    returns (r: Result<seq<nat>, HexError>, start: nat)
    requires 0 < nibbles && end <= |raw| && |raw| - end == nibbles * |words|
    requires AllDigits(raw[end..]) && WordsValue(words, nibbles) == HexValue(raw[end..])
    ensures start == Max(0, end - nibbles)
    ensures r.Err? ==> r.error == InvalidString && !AllDigits(raw)
    ensures r.Ok? ==> |r.value| == |words| + 1 && AllDigits(raw[start..])
    ensures r.Ok? ==> WordsValue(r.value, nibbles) == HexValue(raw[start..])
  {
    start := if end - nibbles < 0 then 0 else end - nibbles;
    var word := ParseWord(raw, start, end, nibbles);
    if word.Err? {
      if AllDigits(raw) {
        DigitsOfSlice(raw, start, end);
      }
      return Err(InvalidString), start;
    }
    assert raw[start..] == raw[start..end] + raw[end..];
    AppendWord(raw, start, end, words, nibbles);
    return Ok(words + [word.value]), start;
  }

  /** The word loop: every digit is consumed, whatever the machine's word size. */
  method ParseWords(raw: string, nibbles: nat) returns (r: Result<nat, HexError>)
    requires 0 < nibbles
    ensures r == if AllDigits(raw) then Ok(HexValue(raw)) else Err(InvalidString)
  {
    var last: nat := |raw| / nibbles;
    var words: seq<nat> := [];
    var end: nat := |raw|;
    assert raw[end..] == [];
    while |words| <= last
      invariant |words| <= last + 1 && end <= |raw|
      invariant if |words| <= last then |raw| - end == nibbles * |words| else end == 0
      invariant AllDigits(raw[end..]) && WordsValue(words, nibbles) == HexValue(raw[end..])
      decreases last + 1 - |words|
    {
      WordSchedule(|raw|, nibbles, |words|);
      assert nibbles * (|words| + 1) == nibbles * |words| + nibbles;
      var next, start := ParseNextWord(raw, end, words, nibbles);
      if next.Err? {
        return Err(InvalidString);
      }
      words, end := next.value, start;
    }
    assert raw[0..] == raw;
    r := Ok(WordsValue(words, nibbles));
  }

  /** ToBigInt; a machine word holds 16 or 8 nibbles. */
  method ToBigInt(s: string, nibbles: nat) returns (r: Result<nat, HexError>)
    requires nibbles == 16 || nibbles == 8
    ensures r == BigIntOf(s)
  {
    var formatted := FormatAndValidateNumber(s);
    if formatted.Err? {
      return Err(formatted.error);
    }
    var raw := formatted.value;
    if |raw| > BYTES_PER_256_BITS {
      return Err(Big256Range);
    }
    r := ParseWords(raw, nibbles);
  }

  lemma {:induction false} DigitsOfSlice(raw: string, start: nat, end: nat)
    requires start <= end <= |raw| && AllDigits(raw)
    ensures AllDigits(raw[start..end])
  {
  }

  /** Print, then parse: the identity exactly below 2^256, whatever the machine's word size. */
  lemma {:induction false} BigIntRoundTrip(n: nat)
    ensures BigIntOf(FromBigInt(n)) == if n < Pow16(BYTES_PER_256_BITS) then Ok(n) else Err(Big256Range)
  {
    PrintedIsWellFormed(n);
    ToHexIsDigits(n);
    ToHexLength(n, BYTES_PER_256_BITS);
  }

  /** The parser accepts exactly the well-formed numbers of at most 64 digits, with the value of the digits. */
  lemma {:induction false} BigIntAccepts(s: string)
    ensures BigIntOf(s).Ok? <==> WellFormedNumber(s) && |s| <= 66
    ensures BigIntOf(s).Ok? ==> BigIntOf(s).value == HexValue(s[2..])
    ensures FormatAndValidateNumber(s).Ok? && 66 < |s| ==> BigIntOf(s) == Err(Big256Range)
    ensures FormatAndValidateNumber(s).Ok? && |s| <= 66 && !WellFormedNumber(s) ==> BigIntOf(s) == Err(InvalidString)
  {
  }

  /** Parse, then print: the same digits in lower case. */
  lemma {:induction false} BigIntCanonical(s: string)
    requires BigIntOf(s).Ok?
    ensures FromBigInt(BigIntOf(s).value) == "0x" + Lower(s[2..])
  {
    var raw := s[2..];
    ToHexOfValue(raw);
    PrintedIsWellFormed(HexValue(raw));
  }

  // ------------------------------------------------------------ 64-bit integers

  function Uint64Of(s: string): Result<U64, HexError> {
    match FormatAndValidateNumber(s)
    case Err(e) => Err(e)
    case Ok(raw) =>
      if |raw| > BYTES_PER_64_BITS then Err(Uint64Range)
      else if !AllDigits(raw) then Err(InvalidString)
      else
        HexValueBound(raw);
        Pow16Monotone(|raw|, 16);
        Pow16Of16();
        Ok(HexValue(raw))
  }

  lemma {:induction false} Pow16Of16()
    ensures Pow16(16) == U64_LIMIT
  {
    Pow16Add(8, 8);
    Pow16Add(4, 4);
    assert Pow16(4) == 0x1_0000;
  }

  /** Up to sixteen digits never overflow 64 bits. */
  lemma {:induction false} NextDigitFits(raw: string, i: nat)
    requires i < |raw| <= BYTES_PER_64_BITS && AllDigits(raw[..i]) && IsDigit(raw[i])
    ensures AllDigits(raw[..i + 1])
    ensures HexValue(raw[..i + 1]) == HexValue(raw[..i]) * 16 + DecodeNibble(raw[i]) < U64_LIMIT
    ensures (HexValue(raw[..i]) * 16 % U64_LIMIT + DecodeNibble(raw[i])) % U64_LIMIT == HexValue(raw[..i + 1])
  {
    HexValueSnoc(raw[..i], raw[i]);
    assert raw[..i + 1] == raw[..i] + [raw[i]];
    HexValueBound(raw[..i + 1]);
    Pow16Monotone(i + 1, 16);
    Pow16Of16();
    ModNoOverflow(HexValue(raw[..i]) * 16, U64_LIMIT);
    ModNoOverflow(HexValue(raw[..i + 1]), U64_LIMIT);
  }

  /** UnmarshalUint64Text: the running value is kept in uint64 arithmetic and never wraps. */
  method UnmarshalUint64Text(input: string) returns (r: Result<U64, HexError>)
    ensures r == Uint64Of(input)
  {
    var formatted := FormatAndValidateNumber(input);
    if formatted.Err? {
      return Err(formatted.error);
    }
    var raw := formatted.value;
    if |raw| > BYTES_PER_64_BITS {
      return Err(Uint64Range);
    }
    Pow16Of16();
    var dec: U64 := 0;
    for i := 0 to |raw|
      invariant AllDigits(raw[..i]) && dec == HexValue(raw[..i])
    {
      var nib := DecodeNibble(raw[i]);
      if nib == BAD_NIBBLE {
        assert !AllDigits(raw);
        return Err(InvalidString);
      }
      NextDigitFits(raw, i);
      dec := (dec * 16 % U64_LIMIT + nib) % U64_LIMIT;
    }
    assert raw[..|raw|] == raw;
    r := Ok(dec);
  }

  /** Parsing inverts printing on all 64-bit values. */
  lemma {:induction false} Uint64RoundTrip(b: U64)
    ensures Uint64Of(MarshalText(b)) == Ok(b)
  {
    PrintedIsWellFormed(b);
    ToHexIsDigits(b);
    Pow16Of16();
    ToHexLength(b, BYTES_PER_64_BITS);
  }

  /** The parser accepts exactly the well-formed numbers below 2^64, and agrees there with ToBigInt. */
  lemma {:induction false} Uint64Accepts(s: string)
    ensures Uint64Of(s).Ok? <==> WellFormedNumber(s) && HexValue(s[2..]) < U64_LIMIT
    ensures Uint64Of(s).Ok? ==> BigIntOf(s) == Ok(Uint64Of(s).value)
    ensures FormatAndValidateNumber(s).Ok? && 18 < |s| ==> Uint64Of(s) == Err(Uint64Range)
    ensures FormatAndValidateNumber(s).Ok? && |s| <= 18 && !WellFormedNumber(s) ==> Uint64Of(s) == Err(InvalidString)
  {
    if WellFormedNumber(s) {
      var raw := s[2..];
      Pow16Of16();
      HexValueBound(raw);
      if |raw| > BYTES_PER_64_BITS {
        HexValueLowerBound(raw);
        Pow16Monotone(16, |raw| - 1);
      } else {
        Pow16Monotone(|raw|, 16);
      }
    }
  }

  // ------------------------------------------------------------ byte strings

  /** Two lower-case digits per byte (encoding/hex). */
  function HexOfBytes(b: seq<Byte>): (s: string)
    ensures |s| == 2 * |b|
  {
    if b == [] then []
    else HexOfBytes(b[..|b| - 1]) + [Digit(b[|b| - 1] / 16), Digit(b[|b| - 1] % 16)]
  }

  function PairValue(hi: char, lo: char): Byte
    requires IsDigit(hi) && IsDigit(lo)
  {
    NibbleCanonical(hi);
    NibbleCanonical(lo);
    DecodeNibble(hi) * 16 + DecodeNibble(lo)
  }

  function BytesOfHex(s: string): (b: seq<Byte>)
    requires |s| % 2 == 0 && AllDigits(s)
    ensures |b| == |s| / 2
  {
    if s == [] then [] else BytesOfHex(s[..|s| - 2]) + [PairValue(s[|s| - 2], s[|s| - 1])]
  }

  function EncodeBytes(b: seq<Byte>): string {
    "0x" + HexOfBytes(b)
  }

  lemma {:induction false} BytesRoundTrip(b: seq<Byte>)
    ensures AllDigits(HexOfBytes(b)) && BytesOfHex(HexOfBytes(b)) == b
    decreases |b|
  {
    if b == [] {
    } else {
      var front, last := b[..|b| - 1], b[|b| - 1];
      BytesRoundTrip(front);
      PairRoundTrip(last);
      var s, hi, lo := HexOfBytes(front), Digit(last / 16), Digit(last % 16);
      BytesOfHexSnoc(s, hi, lo);
      assert HexOfBytes(b) == s + [hi, lo];
      assert b == front + [last];
    }
  }

  lemma {:induction false} BytesOfHexSnoc(s: string, hi: char, lo: char)
    requires |s| % 2 == 0 && AllDigits(s) && IsDigit(hi) && IsDigit(lo)
    ensures AllDigits(s + [hi, lo]) && BytesOfHex(s + [hi, lo]) == BytesOfHex(s) + [PairValue(hi, lo)]
  {
    var t := s + [hi, lo];
    assert t[..|t| - 2] == s && t[|t| - 2] == hi && t[|t| - 1] == lo;
  }

  lemma {:induction false} PairRoundTrip(b: Byte)
    ensures IsDigit(Digit(b / 16)) && IsDigit(Digit(b % 16))
    ensures PairValue(Digit(b / 16), Digit(b % 16)) == b
  {
    DigitRoundTrip(b / 16);
    DigitRoundTrip(b % 16);
  }

  lemma {:induction false} HexCanonical(s: string)
    requires |s| % 2 == 0 && AllDigits(s)
    ensures HexOfBytes(BytesOfHex(s)) == Lower(s)
    decreases |s|
  {
    if s == [] {
    } else {
      var front, hi, lo := s[..|s| - 2], s[|s| - 2], s[|s| - 1];
      HexCanonical(front);
      PairCanonical(hi, lo);
      LowerLastPair(s);
      var b := BytesOfHex(s);
      assert b[..|b| - 1] == BytesOfHex(front) && b[|b| - 1] == PairValue(hi, lo);
    }
  }

  lemma {:induction false} PairCanonical(hi: char, lo: char)
    requires IsDigit(hi) && IsDigit(lo)
    ensures Digit(PairValue(hi, lo) / 16) == LowerDigit(hi) && Digit(PairValue(hi, lo) % 16) == LowerDigit(lo)
  {
    NibbleCanonical(hi);
    NibbleCanonical(lo);
  }

  lemma {:induction false} LowerLastPair(s: string)
    requires 2 <= |s|
    ensures Lower(s) == Lower(s[..|s| - 2]) + [LowerDigit(s[|s| - 2]), LowerDigit(s[|s| - 1])]
  {
    assert s[..|s| - 1][..|s| - 2] == s[..|s| - 2];
  }

  /** Byte `i` is the value of digits 2i and 2i + 1. */
  lemma {:induction false} BytesOfHexAt(s: string, i: nat)
    requires |s| % 2 == 0 && AllDigits(s) && 2 * i + 1 < |s|
    ensures BytesOfHex(s)[i] == DecodeNibble(s[2 * i]) * 16 + DecodeNibble(s[2 * i + 1])
    decreases |s|
  {
    if 2 * i + 2 < |s| {
      BytesOfHexAt(s[..|s| - 2], i);
    }
  }

  /** Digits 2i and 2i + 1 are the high and the low half of byte `i`. */
  lemma {:induction false} HexOfBytesAt(b: seq<Byte>, i: nat)
    requires i < |b|
    ensures HexOfBytes(b)[2 * i] == Digit(b[i] / 16) && HexOfBytes(b)[2 * i + 1] == Digit(b[i] % 16)
    decreases |b|
  {
    if i < |b| - 1 {
      HexOfBytesAt(b[..|b| - 1], i);
    }
  }

  /** The printed text: the prefix, then two digits per byte. */
  lemma {:induction false} EncodedBytesAt(b: seq<Byte>, i: nat)
    requires i < |b|
    ensures var t := EncodeBytes(b);
      && |t| == 2 + 2 * |b| && t[0] == '0' && t[1] == 'x'
      && t[2 + 2 * i] == Digit(b[i] / 16) && t[3 + 2 * i] == Digit(b[i] % 16)
  {
    HexOfBytesAt(b, i);
  }

  predicate AcceptsFixed(input: string, length: nat) {
    FormatAndValidateText(input).Ok?
    && |FormatAndValidateText(input).value| == 2 * length
    && AllDigits(FormatAndValidateText(input).value)
  }

  /**
   DecodeFixedText checks every digit before it writes, so the buffer is either the decoded bytes or
   untouched.
   */
  method DecodeFixedText(input: string, out: array<Byte>) returns (failure: Option<HexError>)
    modifies out
    ensures failure.None? <==> AcceptsFixed(input, out.Length)
    ensures failure.Some? ==> out[..] == old(out[..])
    ensures failure.Some? && FormatAndValidateText(input).Ok? ==>
      failure.value == if |FormatAndValidateText(input).value| == 2 * out.Length then InvalidString else WrongLength
    ensures failure.None? ==> out[..] == BytesOfHex(FormatAndValidateText(input).value)
    ensures failure.None? && input != [] ==>
      |input| == 2 + 2 * out.Length && forall i :: 0 <= i < out.Length ==>
        out[i] == DecodeNibble(input[2 + 2 * i]) * 16 + DecodeNibble(input[3 + 2 * i])
  {
    var formatted := FormatAndValidateText(input);
    if formatted.Err? {
      return Some(formatted.error);
    }
    var raw := formatted.value;
    if |raw| / 2 != out.Length {
      return Some(WrongLength);
    }
    for i := 0 to |raw|
      invariant forall j :: 0 <= j < i ==> IsDigit(raw[j])
      invariant out[..] == old(out[..])
    {
      if DecodeNibble(raw[i]) == BAD_NIBBLE {
        return Some(InvalidString);
      }
    }
    DecodeInto(raw, out);
    forall i | 0 <= i < out.Length
      ensures out[i] == DecodeNibble(raw[2 * i]) * 16 + DecodeNibble(raw[2 * i + 1])
    {
      BytesOfHexAt(raw, i);
      assert out[i] == out[..][i];
    }
    return None;
  }

  /** hex.Decode on verified digits. */
  method DecodeInto(raw: string, out: array<Byte>)
    requires AllDigits(raw) && |raw| == 2 * out.Length
    modifies out
    ensures out[..] == BytesOfHex(raw)
  {
    for i := 0 to out.Length
      invariant out[..i] == BytesOfHex(raw[..2 * i])
    {
      out[i] := PairValue(raw[2 * i], raw[2 * i + 1]);
      assert raw[..2 * i + 2][..2 * i] == raw[..2 * i];
      assert out[..i + 1] == out[..i] + [out[i]];
    }
    assert raw[..2 * out.Length] == raw;
    assert out[..out.Length] == out[..];
  }

  method UnmarshalByteText(input: string) returns (r: Result<seq<Byte>, HexError>)
    ensures r.Ok? <==> FormatAndValidateText(input).Ok? && AllDigits(FormatAndValidateText(input).value)
    ensures r.Ok? ==> r.value == BytesOfHex(FormatAndValidateText(input).value)
    ensures FormatAndValidateText(input).Ok? && r.Err? ==> r.error == InvalidString
  {
    var formatted := FormatAndValidateText(input);
    if formatted.Err? {
      return Err(formatted.error);
    }
    var raw := formatted.value;
    var dec := new Byte[|raw| / 2](_ => 0);
    if !AllDigits(raw) {
      return Err(InvalidString);
    }
    DecodeInto(raw, dec);
    return Ok(dec[..]);
  }

  /** Every byte string survives encoding and fixed-length decoding. */
  lemma {:induction false} EncodedBytesDecode(b: seq<Byte>)
    ensures AcceptsFixed(EncodeBytes(b), |b|)
    ensures BytesOfHex(FormatAndValidateText(EncodeBytes(b)).value) == b
  {
    BytesRoundTrip(b);
    assert EncodeBytes(b)[2..] == HexOfBytes(b);
  }
}
