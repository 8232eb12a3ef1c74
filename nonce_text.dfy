/**
 * The text of a wallet-link challenge. `/link` draws 32 random bytes and
 * calls `.toString('hex')` on them, but `randomBytes` returns a `Uint8Array`,
 * whose `toString` ignores its argument and joins the bytes' decimal
 * renderings with commas: the challenge reads like "7,213,0,...".
 * Parsing that text back gives the bytes, so distinct draws give distinct
 * challenges.
 */
module NonceText {

  const COMMA: char := ','

  /**
   * One element of a `Uint8Array`. The bot does not depend on the escrow
   * program, so this module keeps its own byte type rather than importing
   * `Token.U8`; the two have the same values.
   */
  type Byte = x: int | 0 <= x < 0x100

  function DigitChar(d: nat): (c: char)
    requires d < 10
    ensures '0' <= c <= '9'
  {
    "0123456789"[d]
  }

  function DigitValue(c: char): nat
  {
    if '0' <= c <= '9' then (c - '0') as nat else 0
  }

  /** JavaScript's rendering of a non-negative integer: decimal digits, no leading zero. */
  function Decimal(n: nat): (r: string)
    ensures 1 <= |r|
    ensures forall i :: 0 <= i < |r| ==> '0' <= r[i] <= '9'
  {
    if n < 10 then [DigitChar(n)] else Decimal(n / 10) + [DigitChar(n % 10)]
  }

  /** The number a string of decimal digits denotes. */
  function ParseDecimal(s: string): nat
  {
    if s == [] then 0 else 10 * ParseDecimal(s[..|s| - 1]) + DigitValue(s[|s| - 1])
  }

  lemma {:induction false} ParseDecimalInverse(n: nat)
    ensures ParseDecimal(Decimal(n)) == n
  {
    if n >= 10 {
      var s := Decimal(n);
      assert s[..|s| - 1] == Decimal(n / 10);
      ParseDecimalInverse(n / 10);
    }
  }

  /** `Uint8Array.prototype.toString`: the bytes in decimal, separated by commas. */
  function Render(bytes: seq<Byte>): (r: string)
    ensures bytes != [] ==> r != []
  {
    if bytes == [] then ""
    else if |bytes| == 1 then Decimal(bytes[0])
    else Decimal(bytes[0]) + [COMMA] + Render(bytes[1..])
  }

  /** Position of the first comma in `s`, or `|s|` when there is none. */
  function FirstComma(s: string): (k: nat)
    ensures k <= |s|
    ensures forall i :: 0 <= i < k ==> s[i] != COMMA
    ensures k < |s| ==> s[k] == COMMA
  {
    if s == [] || s[0] == COMMA then 0 else 1 + FirstComma(s[1..])
  }

  /** Reads a comma-separated list of decimal numbers back, each taken modulo 256. */
  function Parse(s: string): seq<Byte>
    decreases |s|
  {
    var k := FirstComma(s);
    var b := ParseDecimal(s[..k]) % 0x100;
    if k == |s| then [b] else [b] + Parse(s[k + 1..])
  }

  lemma {:induction false} FirstCommaAfter(d: string, rest: string)
    requires forall i :: 0 <= i < |d| ==> d[i] != COMMA
    ensures FirstComma(d + rest) == |d| + FirstComma(rest)
  {
    if d == [] {
      assert d + rest == rest;
    } else {
      assert (d + rest)[0] == d[0];
      assert (d + rest)[1..] == d[1..] + rest;
      FirstCommaAfter(d[1..], rest);
    }
  }

  lemma ByteDecimalInverse(b: Byte)
    ensures ParseDecimal(Decimal(b)) % 0x100 == b
  {
    ParseDecimalInverse(b);
  }

  lemma RenderOne(bytes: seq<Byte>)
    requires |bytes| == 1
    ensures FirstComma(Render(bytes)) == |Render(bytes)| == |Decimal(bytes[0])|
    ensures Render(bytes) == Decimal(bytes[0])
  {
    var d := Decimal(bytes[0]);
    FirstCommaAfter(d, "");
    assert d + "" == d;
  }

  lemma RenderMany(bytes: seq<Byte>)
    requires |bytes| > 1
    ensures var d := Decimal(bytes[0]);
            var s := Render(bytes);
            && FirstComma(s) == |d| < |s|
            && s[..|d|] == d
            && s[|d| + 1..] == Render(bytes[1..])
  {
    var d := Decimal(bytes[0]);
    var rest := [COMMA] + Render(bytes[1..]);
    assert Render(bytes) == d + rest;
    FirstCommaAfter(d, rest);
  }

  /** Parsing a rendered challenge gives back the random bytes it was made from. */
  lemma {:induction false} ParseRender(bytes: seq<Byte>)
    requires bytes != []
    ensures Parse(Render(bytes)) == bytes
  {
    ByteDecimalInverse(bytes[0]);
    if |bytes| == 1 {
      RenderOne(bytes);
      var s := Render(bytes);
      assert s[..|s|] == s;
    } else {
      RenderMany(bytes);
      ParseRender(bytes[1..]);
      assert bytes == [bytes[0]] + bytes[1..];
    }
  }

  /** Different random draws give different challenges. */
  lemma RenderInjective(a: seq<Byte>, b: seq<Byte>)
    requires a != [] && b != [] && Render(a) == Render(b)
    ensures a == b
  {
    ParseRender(a);
    ParseRender(b);
  }
}
