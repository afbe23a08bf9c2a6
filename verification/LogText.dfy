/**
 Text as the log parser sees it: lines of bytes decoded as UTF-8, split at white space, and read as hexadecimal
 numbers.  Well-formed UTF-8 is Table 3-7 of the Unicode Standard; a Dafny `char` is a Unicode scalar value.
 */
module LogText {
  import opened Bytes
  import opened Text
  import opened Wrappers

  // ---------- UTF-8 ----------

  predicate Trailing(b: Byte) {
    0x80 <= b < 0xC0
  }

  /** How many bytes the first character takes; 0 when they are ill-formed. */
  function Width(bs: seq<Byte>): (w: nat)
    requires bs != []
    ensures w <= |bs|
  {
    var b := bs[0];
    if b < 0x80 then 1
    else if 0xC2 <= b < 0xE0 then
      if |bs| >= 2 && Trailing(bs[1]) then 2 else 0
    else if 0xE0 <= b < 0xF0 then
      if |bs| >= 3 && Trailing(bs[1]) && Trailing(bs[2])
         && (b == 0xE0 ==> bs[1] >= 0xA0) && (b == 0xED ==> bs[1] < 0xA0) then 3 else 0
    else if 0xF0 <= b < 0xF5 then
      if |bs| >= 4 && Trailing(bs[1]) && Trailing(bs[2]) && Trailing(bs[3])
         && (b == 0xF0 ==> bs[1] >= 0x90) && (b == 0xF4 ==> bs[1] < 0x90) then 4 else 0
    else 0
  }

  function CodePoint(bs: seq<Byte>, w: nat): int
    requires bs != [] && w == Width(bs) > 0
  {
    var lead: int := bs[0];
    if w == 1 then lead
    else if w == 2 then Continue(lead - 0xC0, bs[1])
    else if w == 3 then Continue(Continue(lead - 0xE0, bs[1]), bs[2])
    else Continue(Continue(Continue(lead - 0xF0, bs[1]), bs[2]), bs[3])
  }

  /** Six more bits from a trailing byte. */
  function Continue(bits: int, b: Byte): int {
    64 * bits + (b - 0x80)
  }

  predicate IsScalar(n: int) {
    0 <= n < 0xD800 || 0xE000 <= n < 0x11_0000
  }

  lemma CodePointIsScalar(bs: seq<Byte>)
    requires bs != [] && Width(bs) > 0
    ensures IsScalar(CodePoint(bs, Width(bs)))
  {
  }

  /** `bytes.decode("utf-8")`; None is the UnicodeDecodeError. */
  function Decode(bs: seq<Byte>): Option<string> {
    if bs == [] then Some("")
    else
      var w := Width(bs);
      if w == 0 then None
      else
        match Decode(bs[w..])
        case None => None
        case Some(rest) =>
          CodePointIsScalar(bs);
          Some([CodePoint(bs, w) as char] + rest)
  }

  function EncodeChar(c: char): seq<Byte> {
    var n := c as int;
    if n < 0x80 then [n]
    else if n < 0x800 then [0xC0 + n / 64, 0x80 + n % 64]
    else if n < 0x1_0000 then [0xE0 + n / 4096, 0x80 + n / 64 % 64, 0x80 + n % 64]
    else [0xF0 + n / 262144, 0x80 + n / 4096 % 64, 0x80 + n / 64 % 64, 0x80 + n % 64]
  }

  function Encode(t: string): seq<Byte> {
    if t == "" then [] else EncodeChar(t[0]) + Encode(t[1..])
  }

  lemma Starts(c: char, rest: seq<Byte>)
    ensures forall i :: 0 <= i < |EncodeChar(c)| ==> (EncodeChar(c) + rest)[i] == EncodeChar(c)[i]
  {
  }

  lemma CharRoundTrip(c: char, rest: seq<Byte>)
    ensures var bs := EncodeChar(c) + rest;
            bs != [] && Width(bs) == |EncodeChar(c)| && CodePoint(bs, Width(bs)) == c as int
  {
    Starts(c, rest);
    var bs := EncodeChar(c) + rest;
    var n := c as int;
    if n < 0x800 {
      assert bs[0] == EncodeChar(c)[0];
    } else if n < 0x1_0000 {
      ThreeBytes(n, bs);
    } else {
      FourBytes(n, bs);
    }
  }

  lemma ThreeBytes(n: int, bs: seq<Byte>)
    requires 0x800 <= n < 0x1_0000 && IsScalar(n) && |bs| >= 3
    requires bs[0] == 0xE0 + n / 4096 && bs[1] == 0x80 + n / 64 % 64 && bs[2] == 0x80 + n % 64
    ensures Width(bs) == 3 && CodePoint(bs, 3) == n
  {
    assert n / 4096 == n / 64 / 64;
    assert Continue(n / 4096, bs[1]) == n / 64;
    assert Continue(n / 64, bs[2]) == n;
  }

  lemma FourBytes(n: int, bs: seq<Byte>)
    requires 0x1_0000 <= n < 0x11_0000 && |bs| >= 4
    requires bs[0] == 0xF0 + n / 262144 && bs[1] == 0x80 + n / 4096 % 64
    requires bs[2] == 0x80 + n / 64 % 64 && bs[3] == 0x80 + n % 64
    ensures Width(bs) == 4 && CodePoint(bs, 4) == n
  {
    assert n / 4096 == n / 64 / 64 && n / 262144 == n / 4096 / 64;
    assert Continue(n / 262144, bs[1]) == n / 4096;
    assert Continue(n / 4096, bs[2]) == n / 64;
    assert Continue(n / 64, bs[3]) == n;
  }

  /** Every text comes back from its own bytes. */
  lemma {:induction false} Utf8RoundTrip(t: string)
    ensures Decode(Encode(t)) == Some(t)
  {
    if t == "" {
    } else {
      hide EncodeChar, Width, CodePoint;
      Utf8RoundTrip(t[1..]);
      CharRoundTrip(t[0], Encode(t[1..]));
      CodePointIsScalar(Encode(t));
      assert Encode(t)[|EncodeChar(t[0])|..] == Encode(t[1..]);
      assert [t[0]] + t[1..] == t;
    }
  }

  lemma Unpack(high: nat, low: Byte)
    requires Trailing(low)
    ensures Continue(high, low) / 64 == high && 0x80 + Continue(high, low) % 64 == low
  {
  }

  lemma TwoIsExact(bs: seq<Byte>)
    requires bs != [] && Width(bs) == 2
    ensures EncodeChar(CodePoint(bs, 2) as char) == [bs[0], bs[1]]
  {
    Unpack(bs[0] - 0xC0, bs[1]);
  }

  lemma ThreeIsExact(bs: seq<Byte>)
    requires bs != [] && Width(bs) == 3 && IsScalar(CodePoint(bs, 3))
    ensures EncodeChar(CodePoint(bs, 3) as char) == [bs[0], bs[1], bs[2]]
  {
    hide EncodeChar;
    var high := Continue(bs[0] - 0xE0, bs[1]);
    Unpack(bs[0] - 0xE0, bs[1]);
    Unpack(high, bs[2]);
    ThreeUnits(CodePoint(bs, 3));
  }

  lemma ThreeUnits(n: int)
    requires 0x800 <= n < 0x1_0000 && IsScalar(n)
    ensures EncodeChar(n as char) == [0xE0 + n / 64 / 64, 0x80 + n / 64 % 64, 0x80 + n % 64]
  {
    assert n / 4096 == n / 64 / 64;
  }

  lemma FourUnits(n: int)
    requires 0x1_0000 <= n < 0x11_0000
    ensures EncodeChar(n as char) ==
                [0xF0 + n / 64 / 64 / 64, 0x80 + n / 64 / 64 % 64, 0x80 + n / 64 % 64, 0x80 + n % 64]
  {
    assert n / 4096 == n / 64 / 64 && n / 262144 == n / 4096 / 64;
  }

  lemma FourIsExact(bs: seq<Byte>)
    requires bs != [] && Width(bs) == 4 && IsScalar(CodePoint(bs, 4))
    ensures EncodeChar(CodePoint(bs, 4) as char) == [bs[0], bs[1], bs[2], bs[3]]
  {
    hide EncodeChar;
    var high := Continue(bs[0] - 0xF0, bs[1]);
    Unpack(bs[0] - 0xF0, bs[1]);
    Unpack(high, bs[2]);
    Unpack(Continue(high, bs[2]), bs[3]);
    FourUnits(CodePoint(bs, 4));
  }

  lemma CharIsExact(bs: seq<Byte>)
    requires bs != [] && Width(bs) > 0
    ensures IsScalar(CodePoint(bs, Width(bs))) && EncodeChar(CodePoint(bs, Width(bs)) as char) == bs[..Width(bs)]
  {
    CodePointIsScalar(bs);
    hide EncodeChar, CodePoint;
    if Width(bs) == 1 {
      OneIsExact(bs);
    } else if Width(bs) == 2 {
      TwoIsExact(bs);
    } else if Width(bs) == 3 {
      ThreeIsExact(bs);
    } else {
      FourIsExact(bs);
    }
  }

  lemma OneIsExact(bs: seq<Byte>)
    requires bs != [] && Width(bs) == 1
    ensures EncodeChar(CodePoint(bs, 1) as char) == [bs[0]]
  {
  }

  /** Only well-formed bytes are decoded: exactly those that are the encoding of some text, and to that text. */
  lemma {:induction false} DecodeIsExact(bs: seq<Byte>, t: string)
    ensures Decode(bs) == Some(t) <==> bs == Encode(t)
  {
    hide EncodeChar, CodePoint, Width;
    Utf8RoundTrip(t);
    if Decode(bs) == Some(t) && bs != [] {
      var w := Width(bs);
      CharIsExact(bs);
      DecodeIsExact(bs[w..], t[1..]);
      assert bs == bs[..w] + bs[w..];
    }
  }

  predicate IsAscii(t: string) {
    forall i :: 0 <= i < |t| ==> t[i] as int < 0x80
  }

  function Ascii(t: string): (bs: seq<Byte>)
    requires IsAscii(t)
    ensures |bs| == |t|
  {
    seq(|t|, i requires 0 <= i < |t| => t[i] as int)
  }

  lemma {:induction false} DecodeAscii(t: string, bs: seq<Byte>)
    requires IsAscii(t)
    ensures Decode(Ascii(t) + bs) == match Decode(bs) case None => None case Some(u) => Some(t + u)
  {
    if t == "" {
      assert Ascii(t) + bs == bs;
      assert Decode(bs).Some? ==> "" + Decode(bs).value == Decode(bs).value;
    } else {
      DecodeAscii(t[1..], bs);
      var all := Ascii(t) + bs;
      assert all[1..] == Ascii(t[1..]) + bs && all[0] == t[0] as int && Width(all) == 1;
      if Decode(bs).Some? {
        assert [t[0]] + (t[1..] + Decode(bs).value) == t + Decode(bs).value;
      }
    }
  }

  lemma {:induction false} DecodedIsNoLonger(bs: seq<Byte>)
    ensures Decode(bs).Some? ==> |Decode(bs).value| <= |bs|
  {
    if bs != [] && Width(bs) > 0 {
      DecodedIsNoLonger(bs[Width(bs)..]);
    }
  }

  // ---------- Lines ----------

  const NEWLINE: Byte := 10

  function LineLength(file: seq<Byte>): (k: nat)
    ensures k <= |file| && NEWLINE !in file[..k] && (k < |file| ==> file[k] == NEWLINE)
  {
    if file == [] || file[0] == NEWLINE then 0
    else
      var k := LineLength(file[1..]);
      assert file[..1 + k] == [file[0]] + file[1..][..k];
      1 + k
  }

  /** The lines of a file opened for reading bytes, without their newlines. */
  function Lines(file: seq<Byte>): seq<seq<Byte>> {
    if file == [] then []
    else
      var k := LineLength(file);
      if k == |file| then [file] else [file[..k]] + Lines(file[k + 1..])
  }

  lemma LinesCons(line: seq<Byte>, rest: seq<Byte>)
    requires NEWLINE !in line
    ensures Lines(line + [NEWLINE] + rest) == [line] + Lines(rest)
  {
    var file := line + [NEWLINE] + rest;
    var k := LineLength(file);
    assert forall i :: 0 <= i < |line| ==> file[i] == line[i] && line[i] in line;
    assert file[|line|] == NEWLINE;
    assert forall i :: 0 <= i < k ==> file[i] == file[..k][i] && file[..k][i] in file[..k];
    assert k == |line|;
    assert file[..|line|] == line && file[|line| + 1..] == rest;
  }

  /** The lines a run of bytes falls into when a newline follows it. */
  function Split(bs: seq<Byte>): (ls: seq<seq<Byte>>)
    ensures ls != []
  {
    var k := LineLength(bs);
    if k == |bs| then [bs] else [bs[..k]] + Split(bs[k + 1..])
  }

  lemma {:induction false} SplitHasNoNewlines(bs: seq<Byte>, i: nat)
    requires i < |Split(bs)|
    ensures NEWLINE !in Split(bs)[i]
    decreases |bs|
  {
    var k := LineLength(bs);
    if k == |bs| {
      assert bs[..k] == bs;
    } else if i > 0 {
      SplitHasNoNewlines(bs[k + 1..], i - 1);
    }
  }

  lemma OneLineSplit(bs: seq<Byte>)
    requires NEWLINE !in bs
    ensures Split(bs) == [bs]
  {
    assert forall i :: 0 <= i < |bs| ==> bs[i] in bs;
    assert LineLength(bs) == |bs|;
  }

  /** A newline never belongs to a longer character, so text up to one decodes by itself, and to no more. */
  lemma {:induction false} DecodedUpToNewline(bs: seq<Byte>, k: nat)
    requires k < |bs| && bs[k] == NEWLINE
    ensures Decode(bs).Some? ==> Decode(bs[..k]).Some? && |Decode(bs[..k]).value| < |Decode(bs).value|
    decreases k
  {
    if k > 0 && Width(bs) > 0 {
      var w := Width(bs);
      assert w <= k && Width(bs[..k]) == w;
      assert bs[w..][..k - w] == bs[..k][w..];
      DecodedUpToNewline(bs[w..], k - w);
    }
  }

  // ---------- Words ----------

  predicate IsBlank(t: string) {
    forall i :: 0 <= i < |t| ==> IsSpace(t[i])
  }

  /** The characters that Python's `str.isspace` knows, by code point. */
  lemma BlankExactly(t: string)
    ensures IsBlank(t) <==> forall i :: 0 <= i < |t| ==>
              t[i] as int in {9, 10, 11, 12, 13, 28, 29, 30, 31, 32, 0x85, 0xA0, 0x1680, 0x2000, 0x2001, 0x2002, 0x2003,
                              0x2004, 0x2005, 0x2006, 0x2007, 0x2008, 0x2009, 0x200A, 0x2028, 0x2029, 0x202F, 0x205F,
                              0x3000}
  {
  }

  predicate IsWord(t: string) {
    t != "" && forall i :: 0 <= i < |t| ==> !IsSpace(t[i])
  }

  predicate IsTrimmed(t: string) {
    t == "" || (!IsSpace(t[0]) && !IsSpace(t[|t| - 1]))
  }

  lemma {:induction false} StripLeftExactly(a: string, rest: string)
    requires IsBlank(a) && (rest == "" || !IsSpace(rest[0]))
    ensures StripLeft(a + rest) == rest
  {
    if a == "" {
      assert a + rest == rest;
    } else {
      assert (a + rest)[1..] == a[1..] + rest;
      StripLeftExactly(a[1..], rest);
    }
  }

  lemma {:induction false} StripRightExactly(front: string, b: string)
    requires IsBlank(b) && (front == "" || !IsSpace(front[|front| - 1]))
    ensures StripRight(front + b) == front
  {
    if b == "" {
      assert front + b == front;
    } else {
      assert (front + b)[..|front + b| - 1] == front + b[..|b| - 1];
      StripRightExactly(front, b[..|b| - 1]);
    }
  }

  /** White space goes from both ends, and nothing else. */
  lemma StripExactly(a: string, t: string, b: string)
    requires IsBlank(a) && IsTrimmed(t) && IsBlank(b)
    ensures Strip(a + t + b) == t
  {
    hide StripLeft, StripRight;
    if t == "" {
      StripLeftExactly(a + t + b, "");
      assert a + t + b + "" == a + t + b;
      StripRightExactly("", "");
      assert "" + "" == "";
    } else {
      assert a + t + b == a + (t + b);
      StripLeftExactly(a, t + b);
      StripRightExactly(t, b);
    }
  }

  function WordLength(t: string): (k: nat)
    ensures k <= |t| && (forall i :: 0 <= i < k ==> !IsSpace(t[i])) && (k < |t| ==> IsSpace(t[k]))
  {
    if t == "" || IsSpace(t[0]) then 0 else 1 + WordLength(t[1..])
  }

  /** `str.split()`. */
  function Words(t: string): seq<string>
    decreases |t|
  {
    if t == "" then []
    else if IsSpace(t[0]) then Words(t[1..])
    else [t[..WordLength(t)]] + Words(t[WordLength(t)..])
  }

  lemma WordThenSpace(w: string, rest: string)
    requires IsWord(w)
    ensures Words(w + " " + rest) == [w] + Words(rest)
  {
    var t := w + " " + rest;
    var k := WordLength(t);
    assert forall i :: 0 <= i < |w| ==> t[i] == w[i];
    assert t[|w|] == ' ' && IsSpace(t[|w|]) && !IsSpace(t[0]);
    assert k == |w|;
    assert t[..|w|] == w && t[|w|..] == " " + rest && (" " + rest)[1..] == rest;
  }

  lemma {:induction false} WordsFit(t: string)
    requires forall i :: 0 <= i < |Words(t)| ==> |Words(t)[i]| == 4
    ensures 4 * |Words(t)| <= |t|
    decreases |t|
  {
    if t == "" {
    } else {
      if IsSpace(t[0]) {
        assert Words(t) == Words(t[1..]);
        WordsFit(t[1..]);
      } else {
        var k := WordLength(t);
        assert Words(t)[0] == t[..k];
        forall i | 0 <= i < |Words(t[k..])| ensures |Words(t[k..])[i]| == 4 {
          assert Words(t)[1 + i] == Words(t[k..])[i];
        }
        WordsFit(t[k..]);
      }
    }
  }

  // ---------- Numbers ----------

  predicate IsUpperDigit(c: char) {
    '0' <= c <= '9' || 'A' <= c <= 'F'
  }

  predicate WellPlaced(t: string) {
    && t != "" && t[0] != '_' && t[|t| - 1] != '_'
    && (forall i :: 0 <= i < |t| ==> IsHexDigit(t[i]) || t[i] == '_')
    && forall i :: 0 <= i < |t| - 1 && t[i] == '_' ==> t[i + 1] != '_'
  }

  function HexNumber(t: string): nat
    requires forall i :: 0 <= i < |t| ==> IsHexDigit(t[i]) || t[i] == '_'
  {
    if t == "" then 0
    else
      var init, c := t[..|t| - 1], t[|t| - 1];
      if c == '_' then HexNumber(init) else 16 * HexNumber(init) + DigitValue(c)
  }

  function WithoutSign(t: string): string {
    if t != "" && (t[0] == '+' || t[0] == '-') then t[1..] else t
  }

  function WithoutPrefix(t: string): string {
    if |t| >= 2 && t[0] == '0' && (t[1] == 'x' || t[1] == 'X') then
      if |t| >= 3 && t[2] == '_' then t[3..] else t[2..]
    else t
  }

  /** `int(t, 16)` for a word of ASCII characters: sign, prefix and single underscores are allowed. */
  function IntBase16(t: string): Option<int> {
    var digits := WithoutPrefix(WithoutSign(t));
    if WellPlaced(digits) then
      var n: int := HexNumber(digits);
      Some(if t[0] == '-' then -n else n)
    else None
  }

  /** What the parser accepts as one byte. */
  predicate IsByteToken(t: string) {
    |t| == 4 && t[0] == '0' && t[1] == 'x' && IsUpperDigit(t[2]) && IsUpperDigit(t[3])
  }

  function TokenByte(t: string): Byte
    requires IsByteToken(t)
  {
    ByteOf(DigitValue(t[2]), DigitValue(t[3]))
  }

  lemma TokenIsRead(t: string)
    requires IsByteToken(t)
    ensures IntBase16(t) == Some(TokenByte(t))
  {
    var digits := WithoutPrefix(WithoutSign(t));
    assert digits == t[2..] == [t[2], t[3]];
    assert digits[..1] == [t[2]] && digits[..1][..0] == "";
    assert HexNumber(digits[..1]) == DigitValue(t[2]);
  }

  function UpperDigit(d: Digit): char {
    var n: nat := d;
    if n < 10 then (48 + n) as char else (55 + n) as char
  }

  function HexToken(b: Byte): string {
    ['0', 'x', UpperDigit(b / 16), UpperDigit(b % 16)]
  }

  /** `%02X` and back. */
  lemma TokenRoundTrip(b: Byte)
    ensures IsByteToken(HexToken(b)) && TokenByte(HexToken(b)) == b
  {
    assert DigitValue(UpperDigit(b / 16)) == b / 16 && DigitValue(UpperDigit(b % 16)) == b % 16;
  }

  lemma UpperDigitExactly(d: Digit)
    ensures UpperDigit(d) == "0123456789ABCDEF"[d] && IsUpperDigit(UpperDigit(d)) && DigitValue(UpperDigit(d)) == d
  {
  }

  lemma IsDigitOf(c: char)
    requires IsUpperDigit(c)
    ensures UpperDigit(DigitValue(c)) == c
  {
  }

  /** `0x%02X`: two upper-case digits. */
  lemma TokenIsWritten(b: Byte)
    ensures HexToken(b) == ['0', 'x', "0123456789ABCDEF"[b / 16], "0123456789ABCDEF"[b % 16]]
  {
    UpperDigitExactly(b / 16);
    UpperDigitExactly(b % 16);
    hide UpperDigit;
  }

  /** The parser accepts what is written for some byte and nothing else. */
  lemma TokenExactly(t: string)
    ensures IsByteToken(t) <==> exists b: Byte :: t == HexToken(b)
  {
    if b: Byte :| t == HexToken(b) {
      TokenRoundTrip(b);
    }
    if IsByteToken(t) {
      IsDigitOf(t[2]);
      IsDigitOf(t[3]);
      hide UpperDigit, DigitValue;
      assert t == HexToken(TokenByte(t));
    }
  }

  // ---------- Bits ----------

  /** Python's `|` on integers of any size and sign. */
  function BitOr(x: int, y: int): int
    decreases if x < 0 then -x else x
  {
    if x == 0 then y
    else if x == -1 then -1
    else 2 * BitOr(x / 2, y / 2) + (if x % 2 == 1 || y % 2 == 1 then 1 else 0)
  }

  /** `x << k`. */
  function Shifted(x: nat, k: nat): nat {
    if k == 0 then x else 2 * Shifted(x, k - 1)
  }

  /** Bits above and below position k do not meet. */
  lemma {:induction false} OrIsSum(low: nat, high: nat, k: nat)
    requires low < Shifted(1, k)
    ensures BitOr(low, Shifted(high, k)) == low + Shifted(high, k)
  {
    if low == 0 {
    } else {
      OrIsSum(low / 2, high, k - 1);
      var p := Shifted(high, k - 1);
      assert (2 * p) / 2 == p && (2 * p) % 2 == 0;
    }
  }

  lemma {:induction false} OrCommutes(x: nat, y: nat)
    ensures BitOr(x, y) == BitOr(y, x)
  {
    if x == 0 {
      OrZero(y);
    } else if y == 0 {
      OrZero(x);
    } else {
      OrCommutes(x / 2, y / 2);
    }
  }

  lemma {:induction false} OrZero(x: nat)
    ensures BitOr(x, 0) == x
  {
    if x == 0 {
    } else {
      OrZero(x / 2);
    }
  }

  lemma EightBits(x: nat)
    ensures Shifted(x, 8) == 256 * x
  {
    assert Shifted(x, 1) == 2 * x;
    assert Shifted(x, 3) == 2 * Shifted(x, 2) && Shifted(x, 2) == 2 * Shifted(x, 1);
    assert Shifted(x, 5) == 2 * Shifted(x, 4) && Shifted(x, 4) == 2 * Shifted(x, 3);
    assert Shifted(x, 7) == 2 * Shifted(x, 6) && Shifted(x, 6) == 2 * Shifted(x, 5);
  }

  lemma OrOfBytes(low: Byte, high: nat)
    ensures BitOr(low, 256 * high) == BitOr(256 * high, low) == low + 256 * high
  {
    EightBits(1);
    EightBits(high);
    OrIsSum(low, high, 8);
    OrCommutes(256 * high, low);
  }
}
