/** The shared parts of border.js: the colour parser hexToRgb, the
    transparency test checkForTransparency, and the write of one border
    colour into the R, G and B bytes of a set of pixels (alpha is never
    written). */
module Border {
  import opened Pixels

  datatype Rgb = Rgb(r: int, g: int, b: int)

  predicate IsColor(c: Rgb)
  {
    0 <= c.r <= 255 && 0 <= c.g <= 255 && 0 <= c.b <= 255
  }

  // ---------------------------------------------------------------------
  // hexToRgb: strip one leading '#', parseInt(hex, 16), then read the
  // bytes of the 32-bit integer with >> and & 255.
  // ---------------------------------------------------------------------

  /** The digits parseInt accepts with radix 16. */
  predicate IsHexDigit(c: char)
  {
    '0' <= c <= '9' || 'a' <= c <= 'f' || 'A' <= c <= 'F'
  }

  function HexDigitValue(c: char): (d: int)
    requires IsHexDigit(c)
    ensures 0 <= d < 16
  {
    if '0' <= c <= '9' then c as int - '0' as int
    else if 'a' <= c <= 'f' then c as int - 'a' as int + 10
    else c as int - 'A' as int + 10
  }

  /** The lower-case digit of a value below 16, as an HTML colour input writes it. */
  function HexChar(d: int): (c: char)
    requires 0 <= d < 16
    ensures IsHexDigit(c) && HexDigitValue(c) == d
  {
    if d < 10 then ('0' as int + d) as char else ('a' as int + d - 10) as char
  }

  /** The ECMAScript WhiteSpace and LineTerminator code points, which parseInt skips at the start. */
  predicate IsJsWhitespace(c: char)
  {
    var u := c as int;
    u == 0x09 || u == 0x0B || u == 0x0C || u == 0xFEFF || u == 0x20 || u == 0xA0 || u == 0x1680
    || (0x2000 <= u <= 0x200A) || u == 0x202F || u == 0x205F || u == 0x3000
    || u == 0x0A || u == 0x0D || u == 0x2028 || u == 0x2029
  }

  function TrimStart(s: string): (r: string)
    ensures |r| <= |s| && r == s[|s| - |r|..]
    ensures |r| > 0 ==> !IsJsWhitespace(r[0])
    ensures |s| > 0 && !IsJsWhitespace(s[0]) ==> r == s
  {
    if |s| > 0 && IsJsWhitespace(s[0]) then TrimStart(s[1..]) else s
  }

  /** Length of the run of hex digits s starts with. */
  function DigitRun(s: string): (n: nat)
    ensures n <= |s|
    ensures forall i :: 0 <= i < n ==> IsHexDigit(s[i])
    ensures n < |s| ==> !IsHexDigit(s[n])
  {
    if |s| > 0 && IsHexDigit(s[0]) then 1 + DigitRun(s[1..]) else 0
  }

  predicate AllHexDigits(s: string)
  {
    forall i :: 0 <= i < |s| ==> IsHexDigit(s[i])
  }

  /** The value of a string of hex digits, most significant first. */
  function HexValue(digits: string): (v: nat)
    requires AllHexDigits(digits)
  {
    if |digits| == 0 then 0
    else HexValue(digits[..|digits| - 1]) * 16 + HexDigitValue(digits[|digits| - 1])
  }

  /** A JavaScript number as parseInt can return it. */
  datatype Number = NaN | Int(value: int)

  /** parseInt(s, 16): skip leading white space, read an optional sign and an
      optional 0x / 0X prefix, then the longest run of hex digits; no digit
      at all gives NaN. */
  function ParseHex(s: string): Number
  {
    var t := TrimStart(s);
    var v := Unprefixed(Unsigned(t));
    var magnitude: int := LeadingHexValue(v);
    if DigitRun(v) == 0 then NaN
    else Int(if |t| > 0 && t[0] == '-' then -magnitude else magnitude)
  }

  /** The text after parseInt's optional sign. */
  function Unsigned(t: string): string
  {
    if |t| > 0 && (t[0] == '-' || t[0] == '+') then t[1..] else t
  }

  /** The text after parseInt's optional 0x / 0X prefix. */
  function Unprefixed(u: string): string
  {
    if |u| >= 2 && u[0] == '0' && (u[1] == 'x' || u[1] == 'X') then u[2..] else u
  }

  /** The value of the run of hex digits v starts with. */
  function LeadingHexValue(v: string): nat
  {
    var k := DigitRun(v);
    assert AllHexDigits(v[..k]);
    HexValue(v[..k])
  }

  const Two32: int := 0x1_0000_0000
  const Two31: int := 0x8000_0000

  /** ECMAScript ToInt32, the conversion every bitwise operator applies first. */
  function ToInt32(n: Number): (i: int)
    ensures -Two31 <= i < Two31
    ensures n.Int? && 0 <= n.value < Two31 ==> i == n.value
  {
    match n
    case NaN => 0
    case Int(v) => var m := v % Two32; if m >= Two31 then m - Two32 else m
  }

  /** x & 255: the low byte of the two's complement representation. */
  function LowByte(x: int): (b: int)
    ensures 0 <= b <= 255
  {
    x % 256
  }

  function StripHash(hex: string): (s: string)
    ensures |hex| > 0 && hex[0] == '#' ==> s == hex[1..]
    ensures (|hex| == 0 || hex[0] != '#') ==> s == hex
  {
    if |hex| > 0 && hex[0] == '#' then hex[1..] else hex
  }

  function HexToRgb(hex: string): (c: Rgb)
    ensures IsColor(c)
  {
    SplitBytes(ToInt32(ParseHex(StripHash(hex))))
  }

  /** (x >> 16) & 255, (x >> 8) & 255 and x & 255 of a 32-bit signed value;
      the shifts are floor divisions by 2^16 and 2^8. */
  function SplitBytes(x: int): Rgb
  {
    Rgb(LowByte(x / 0x1_0000), LowByte(x / 0x100), LowByte(x))
  }

  /** The "#rrggbb" text of a colour, as an HTML colour input holds it. */
  function ToHex(c: Rgb): (hex: string)
    requires IsColor(c)
    ensures |hex| == 7 && hex[0] == '#' && AllHexDigits(hex[1..])
  {
    ['#', HexChar(c.r / 16), HexChar(c.r % 16), HexChar(c.g / 16), HexChar(c.g % 16), HexChar(c.b / 16), HexChar(c.b % 16)]
  }

  /** The byte two hex digits spell. */
  function PairValue(hi: char, lo: char): (b: int)
    requires IsHexDigit(hi) && IsHexDigit(lo)
    ensures 0 <= b <= 255
  {
    16 * HexDigitValue(hi) + HexDigitValue(lo)
  }

  /** Six hex digits are the bytes p0 * 65536 + p1 * 256 + p2 of their three pairs. */
  lemma SixDigits(v: string)
    requires |v| == 6 && AllHexDigits(v)
    ensures HexValue(v) == PairValue(v[0], v[1]) * 65536 + PairValue(v[2], v[3]) * 256 + PairValue(v[4], v[5])
  {
    assert v[..5][..4] == v[..4] && v[..4][..3] == v[..3] && v[..3][..2] == v[..2] && v[..2][..1] == v[..1] && v[..1][..0] == [];
    var h1 := HexValue(v[..1]);
    assert v[..1][0] == v[0] && HexValue(v[..1][..0]) == 0;
    assert h1 == HexDigitValue(v[0]);
    var h2 := HexValue(v[..2]);
    assert h2 == h1 * 16 + HexDigitValue(v[1]);
    var h3 := HexValue(v[..3]);
    assert h3 == h2 * 16 + HexDigitValue(v[2]);
    var h4 := HexValue(v[..4]);
    assert h4 == h3 * 16 + HexDigitValue(v[3]);
    var h5 := HexValue(v[..5]);
    assert h5 == h4 * 16 + HexDigitValue(v[4]);
    assert HexValue(v) == h5 * 16 + HexDigitValue(v[5]);
  }

  /** The bytes a value of six hex digits splits into under >> and & 255. */
  lemma ByteSplit(p0: int, p1: int, p2: int)
    requires 0 <= p0 <= 255 && 0 <= p1 <= 255 && 0 <= p2 <= 255
    ensures var n := p0 * 65536 + p1 * 256 + p2;
      LowByte(n / 65536) == p0 && LowByte(n / 256) == p1 && LowByte(n) == p2
  {
    var n := p0 * 65536 + p1 * 256 + p2;
    DivModUnique(n, 65536, p0, p1 * 256 + p2);
    DivModUnique(n, 256, p0 * 256 + p1, p2);
    DivModUnique(p0 * 256 + p1, 256, p0, p1);
    DivModUnique(p0, 256, 0, p0);
  }

  /** parseInt of six hex digits is their value. */
  lemma ParseSixDigits(v: string)
    requires |v| == 6 && AllHexDigits(v)
    ensures ParseHex(v) == Int(HexValue(v))
  {
    assert IsHexDigit(v[0]) && IsHexDigit(v[1]);
    NothingToSkip(v);
    DigitRunOfDigits(v);
    assert v[..DigitRun(v)] == v;
    assert LeadingHexValue(v) == HexValue(v);
  }

  /** Text starting with two hex digits has no white space, sign or 0x prefix to skip. */
  lemma NothingToSkip(v: string)
    requires |v| >= 2 && IsHexDigit(v[0]) && IsHexDigit(v[1])
    ensures TrimStart(v) == v && Unsigned(v) == v && Unprefixed(v) == v
  {
    DigitIsNotWhitespace(v[0]);
  }

  lemma DigitIsNotWhitespace(c: char)
    requires IsHexDigit(c)
    ensures !IsJsWhitespace(c)
  {
  }

  lemma {:induction false} DigitRunOfDigits(v: string)
    requires AllHexDigits(v)
    ensures DigitRun(v) == |v|
  {
    if |v| > 0 {
      assert AllHexDigits(v[1..]) by {
        forall i | 0 <= i < |v| - 1 ensures IsHexDigit(v[1..][i]) {
          assert v[1..][i] == v[i + 1];
        }
      }
      DigitRunOfDigits(v[1..]);
    }
  }

  /** hexToRgb("#RRGGBB") reads the three two-digit pairs as the red, green and blue bytes. */
  lemma HexToRgbPairs(hex: string)
    requires |hex| == 7 && hex[0] == '#' && AllHexDigits(hex[1..])
    ensures HexToRgb(hex) == Rgb(PairValue(hex[1], hex[2]), PairValue(hex[3], hex[4]), PairValue(hex[5], hex[6]))
  {
    var x := PackedPairs(hex);
    HexToRgbOfValue(hex, x, Rgb(PairValue(hex[1], hex[2]), PairValue(hex[3], hex[4]), PairValue(hex[5], hex[6])));
  }

  /** The 32-bit value hexToRgb reads from "#RRGGBB" splits into the three pairs. */
  lemma PackedPairs(hex: string) returns (x: int)
    requires |hex| == 7 && hex[0] == '#' && AllHexDigits(hex[1..])
    ensures ToInt32(ParseHex(StripHash(hex))) == x
    ensures SplitBytes(x) == Rgb(PairValue(hex[1], hex[2]), PairValue(hex[3], hex[4]), PairValue(hex[5], hex[6]))
  {
    var p0, p1, p2 := PairValue(hex[1], hex[2]), PairValue(hex[3], hex[4]), PairValue(hex[5], hex[6]);
    x := p0 * 65536 + p1 * 256 + p2;
    ParseOfHashHex(hex);
    SplitOfPairs(p0, p1, p2, x);
  }

  lemma HexToRgbOfValue(hex: string, x: int, c: Rgb)
    requires ToInt32(ParseHex(StripHash(hex))) == x && SplitBytes(x) == c
    ensures HexToRgb(hex) == c
  {
  }

  /** The 32-bit value hexToRgb shifts and masks, for "#RRGGBB". */
  lemma ParseOfHashHex(hex: string)
    requires |hex| == 7 && hex[0] == '#' && AllHexDigits(hex[1..])
    ensures ToInt32(ParseHex(StripHash(hex))) == PairValue(hex[1], hex[2]) * 65536 + PairValue(hex[3], hex[4]) * 256 + PairValue(hex[5], hex[6])
  {
    var v := hex[1..];
    assert StripHash(hex) == v;
    ParseSixDigits(v);
    SixDigits(v);
  }

  lemma SplitOfPairs(p0: int, p1: int, p2: int, x: int)
    requires 0 <= p0 <= 255 && 0 <= p1 <= 255 && 0 <= p2 <= 255 && x == p0 * 65536 + p1 * 256 + p2
    ensures SplitBytes(x) == Rgb(p0, p1, p2)
  {
    ByteSplit(p0, p1, p2);
  }

  /** Reading back the "#rrggbb" text of a colour gives the colour. */
  lemma HexRoundTrip(c: Rgb)
    requires IsColor(c)
    ensures HexToRgb(ToHex(c)) == c
  {
    var hex := ToHex(c);
    HexToRgbPairs(hex);
    PairOfDigits(c.r);
    PairOfDigits(c.g);
    PairOfDigits(c.b);
    assert hex[1] == HexChar(c.r / 16) && hex[2] == HexChar(c.r % 16);
    assert hex[3] == HexChar(c.g / 16) && hex[4] == HexChar(c.g % 16);
    assert hex[5] == HexChar(c.b / 16) && hex[6] == HexChar(c.b % 16);
  }

  /** The two hex digits written for a byte read back as that byte. */
  lemma PairOfDigits(b: int)
    requires 0 <= b <= 255
    ensures PairValue(HexChar(b / 16), HexChar(b % 16)) == b
  {
  }

  // ---------------------------------------------------------------------
  // checkForTransparency
  // ---------------------------------------------------------------------

  /** Some alpha byte (index 3, 7, 11, ...) is below 255. */
  predicate HasTransparency(s: seq<int>)
  {
    exists i :: 0 <= i < |s| && i % 4 == 3 && s[i] < 255
  }

  /** The scan of the alpha bytes, returning at the first one below 255. */
  method CheckForTransparency(data: array<int>) returns (found: bool)
    ensures found == HasTransparency(data[..])
  {
    var i := 3;
    while i < data.Length
      invariant 3 <= i && i % 4 == 3
      invariant forall j :: 0 <= j < i && j < data.Length && j % 4 == 3 ==> data[j] >= 255
    {
      if data[i] < 255 {
        return true;
      }
      i := i + 4;
    }
    return false;
  }

  // ---------------------------------------------------------------------
  // Recolouring a set of pixels
  // ---------------------------------------------------------------------

  /** Byte c (0 red, 1 green, 2 blue) of the border colour. */
  function Component(color: Rgb, c: int): int
  {
    if c == 0 then color.r else if c == 1 then color.g else color.b
  }

  /** The image after R, G and B of every pixel in `pixels` received the colour. */
  function Recolored(s: seq<int>, color: Rgb, pixels: set<int>): (r: seq<int>)
    requires |s| % 4 == 0
    ensures |r| == |s| && AlphaUnchanged(s, r)
  {
    seq(|s|, j requires 0 <= j < |s| => if j % 4 != 3 && j / 4 in pixels then Component(color, j % 4) else s[j])
  }

  /** Painting one more pixel extends the painted set. */
  lemma RecoloredMore(s: seq<int>, color: Rgb, pixels: set<int>, q: int)
    requires |s| % 4 == 0
    ensures Recolored(Recolored(s, color, pixels), color, {q}) == Recolored(s, color, pixels + {q})
  {
  }

  /** Painting the same pixels twice in one colour is painting them once. */
  lemma RecoloredTwice(s: seq<int>, color: Rgb, pixels: set<int>)
    requires |s| % 4 == 0
    ensures Recolored(Recolored(s, color, pixels), color, pixels) == Recolored(s, color, pixels)
  {
  }

  /** The three stores data[idx], data[idx + 1], data[idx + 2] at idx = q * 4,
      the colour bytes already in range; the typed array drops a store
      outside its bounds. */
  method StorePixel(data: array<int>, q: int, color: Rgb)
    requires data.Length % 4 == 0
    modifies data
    ensures data[..] == if 0 <= q < data.Length / 4 then Recolored(old(data[..]), color, {q}) else old(data[..])
  {
    var idx := q * 4;
    if 0 <= idx < data.Length {
      data[idx] := color.r;
    }
    if 0 <= idx + 1 < data.Length {
      data[idx + 1] := color.g;
    }
    if 0 <= idx + 2 < data.Length {
      data[idx + 2] := color.b;
    }
  }

  /** The pixels a JavaScript Set holds, in the model an insertion-ordered
      sequence without repetitions. */
  function Members(pixels: seq<int>): (m: set<int>)
    ensures forall q :: q in m <==> q in pixels
  {
    set q | q in pixels
  }

  /** The last pass of both transparency borders: paint every collected pixel,
      in the Set's insertion order. */
  method PaintAll(data: array<int>, pixels: seq<int>, color: Rgb)
    requires data.Length % 4 == 0
    requires forall i :: 0 <= i < |pixels| ==> 0 <= pixels[i] < data.Length / 4
    modifies data
    ensures data[..] == Recolored(old(data[..]), color, Members(pixels))
  {
    ghost var s0 := data[..];
    for i := 0 to |pixels|
      invariant data[..] == Recolored(s0, color, Members(pixels[..i]))
    {
      assert Members(pixels[..i + 1]) == Members(pixels[..i]) + {pixels[i]} by {
        assert pixels[..i + 1] == pixels[..i] + [pixels[i]];
      }
      RecoloredMore(s0, color, Members(pixels[..i]), pixels[i]);
      StorePixel(data, pixels[i], color);
    }
    assert pixels[..|pixels|] == pixels;
  }
}
