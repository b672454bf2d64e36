/** utils/img_to_rgb565.py without the image decoding: packing an 8-bit
    R, G, B pixel into a 16-bit RGB565 word, and writing the words of an
    image as a C array declaration, `width` hexadecimal literals per row. */
module Rgb565 {

  import opened Python

  // ---------------------------------------------------------------------------
  // Packing

  /** One pixel of an image converted to mode "RGB": three 8-bit channels. */
  datatype Rgb = Rgb(r: bv8, g: bv8, b: bv8)

  /** `to_rgb565(r, g, b)`, evaluated on 32 bits, which hold every bit of
      Python's result for channels below 256. The word keeps the top five
      bits of red in bits 11-15, the top six bits of green in bits 5-10 and
      the top five bits of blue in bits 0-4, and nothing above bit 15. */
  function ToRgb565(r: bv8, g: bv8, b: bv8): (w: bv32)
    ensures w < 0x1_0000
    ensures w >> 11 == (r >> 3) as bv32
    ensures (w >> 5) & 0x3F == (g >> 2) as bv32
    ensures w & 0x1F == (b >> 3) as bv32
  {
    ((r as bv32 & 0xF8) << 8) | ((g as bv32 & 0xFC) << 3) | (b as bv32 >> 3)
  }

  /** The truncated channels a 5-6-5 word holds. */
  datatype Fields = Fields(red5: bv32, green6: bv32, blue5: bv32)

  /** Reads the three fields back out of a word. */
  function Unpack(w: bv32): Fields
  {
    Fields(w >> 11, (w >> 5) & 0x3F, w & 0x1F)
  }

  /** Puts three fields together into a word. */
  function Pack(f: Fields): bv32
  {
    (f.red5 << 11) | (f.green6 << 5) | f.blue5
  }

  /** Every 16-bit word is the packing of the fields it holds. */
  lemma PackUnpack(w: bv32)
    requires w < 0x1_0000
    ensures Pack(Unpack(w)) == w
  {
  }

  /** Unpacking a packed pixel gives its channels without their dropped low bits. */
  lemma UnpackToRgb565(r: bv8, g: bv8, b: bv8)
    ensures Unpack(ToRgb565(r, g, b)) == Fields((r >> 3) as bv32, (g >> 2) as bv32, (b >> 3) as bv32)
  {
  }

  lemma Widen(x: bv8, y: bv8)
    ensures x as bv32 == y as bv32 <==> x == y
  {
  }

  lemma WordFixesFields(r: bv8, g: bv8, b: bv8, r2: bv8, g2: bv8, b2: bv8)
    requires ToRgb565(r, g, b) == ToRgb565(r2, g2, b2)
    ensures r >> 3 == r2 >> 3 && g >> 2 == g2 >> 2 && b >> 3 == b2 >> 3
  {
    Widen(r >> 3, r2 >> 3);
    Widen(g >> 2, g2 >> 2);
    Widen(b >> 3, b2 >> 3);
  }

  lemma FieldsFixWord(r: bv8, g: bv8, b: bv8, r2: bv8, g2: bv8, b2: bv8)
    requires r >> 3 == r2 >> 3 && g >> 2 == g2 >> 2 && b >> 3 == b2 >> 3
    ensures ToRgb565(r, g, b) == ToRgb565(r2, g2, b2)
  {
    PackUnpack(ToRgb565(r, g, b));
    PackUnpack(ToRgb565(r2, g2, b2));
  }

  /** Two colours pack to the same word exactly when they agree on the top
      five bits of red and blue and the top six bits of green. */
  lemma SameWord(r: bv8, g: bv8, b: bv8, r2: bv8, g2: bv8, b2: bv8)
    ensures ToRgb565(r, g, b) == ToRgb565(r2, g2, b2) <==> r >> 3 == r2 >> 3 && g >> 2 == g2 >> 2 && b >> 3 == b2 >> 3
  {
    if ToRgb565(r, g, b) == ToRgb565(r2, g2, b2) {
      WordFixesFields(r, g, b, r2, g2, b2);
    }
    if r >> 3 == r2 >> 3 && g >> 2 == g2 >> 2 && b >> 3 == b2 >> 3 {
      FieldsFixWord(r, g, b, r2, g2, b2);
    }
  }

  /** The low three bits of red and blue and the low two bits of green are lost. */
  lemma LowBitsDropped(r: bv8, g: bv8, b: bv8, dr: bv8, dg: bv8, db: bv8)
    requires dr < 8 && dg < 4 && db < 8
    ensures ToRgb565((r & 0xF8) | dr, (g & 0xFC) | dg, (b & 0xF8) | db) == ToRgb565(r, g, b)
  {
    FieldsFixWord((r & 0xF8) | dr, (g & 0xFC) | dg, (b & 0xF8) | db, r, g, b);
  }

  /** The packed pixel as the 16-bit word the C array stores. */
  function Word(px: Rgb): bv16
  {
    ToRgb565(px.r, px.g, px.b) as bv16
  }

  /** The list comprehension of `convert`: one word per pixel, in order. */
  function Pixels(image: seq<Rgb>): (p: seq<bv16>)
    ensures |p| == |image|
    ensures forall k :: 0 <= k < |p| ==> p[k] == Word(image[k])
  {
    if image == [] then [] else [Word(image[0])] + Pixels(image[1..])
  }

  // ---------------------------------------------------------------------------
  // Formatting numbers

  const HexDigits := "0123456789ABCDEF"

  function HexDigit(n: bv4): char
  {
    HexDigits[n as int]
  }

  /** The four hex digits of a word, most significant first. */
  function Nibbles(w: bv16): seq<bv4>
  {
    [(w >> 12) as bv4, ((w >> 8) & 0xF) as bv4, ((w >> 4) & 0xF) as bv4, (w & 0xF) as bv4]
  }

  /** The word with the given hex digits. */
  function FromNibbles(a: bv4, b: bv4, c: bv4, d: bv4): bv16
  {
    (a as bv16 << 12) | (b as bv16 << 8) | (c as bv16 << 4) | d as bv16
  }

  lemma NibblesOf(a: bv4, b: bv4, c: bv4, d: bv4)
    ensures Nibbles(FromNibbles(a, b, c, d)) == [a, b, c, d]
  {
  }

  lemma FromNibblesOf(w: bv16)
    ensures FromNibbles(Nibbles(w)[0], Nibbles(w)[1], Nibbles(w)[2], Nibbles(w)[3]) == w
  {
  }

  /** `f"0x{v:04X}"` for a value below 0x10000: "0x" and four upper-case hex
      digits, most significant first. */
  function Literal(w: bv16): (s: string)
    ensures |s| == 6 && s[..2] == "0x"
    ensures forall k :: 2 <= k < 6 ==> s[k] in HexDigits
  {
    var n := Nibbles(w);
    "0x" + [HexDigit(n[0]), HexDigit(n[1]), HexDigit(n[2]), HexDigit(n[3])]
  }

  /** The value of an upper-case hex digit. */
  function HexValue(c: char): (n: bv4)
    requires c in HexDigits
    ensures HexDigit(n) == c
  {
    if '0' <= c <= '9' then (c as int - '0' as int) as bv4 else (c as int - 'A' as int + 10) as bv4
  }

  lemma HexDigitValue(n: bv4)
    ensures HexValue(HexDigit(n)) == n
  {
  }

  /** Reads a literal "0xHHHH" back. */
  function ParseLiteral(s: string): (r: Option<bv16>)
    ensures r.Some? ==> Literal(r.value) == s
  {
    if |s| == 6 && s[..2] == "0x" && s[2] in HexDigits && s[3] in HexDigits && s[4] in HexDigits && s[5] in HexDigits then
      LiteralOfDigits(s);
      Some(FromNibbles(HexValue(s[2]), HexValue(s[3]), HexValue(s[4]), HexValue(s[5])))
    else
      None
  }

  /** "0x" and four hex digits is the literal of the word those digits spell. */
  lemma LiteralOfDigits(s: string)
    requires |s| == 6 && s[..2] == "0x"
    requires s[2] in HexDigits && s[3] in HexDigits && s[4] in HexDigits && s[5] in HexDigits
    ensures Literal(FromNibbles(HexValue(s[2]), HexValue(s[3]), HexValue(s[4]), HexValue(s[5]))) == s
  {
    var a, b, c, d := HexValue(s[2]), HexValue(s[3]), HexValue(s[4]), HexValue(s[5]);
    NibblesOf(a, b, c, d);
    SpelledBy(s, a, b, c, d);
  }

  /** A six-character "0x" string is spelled by the hex digits of its last four characters. */
  lemma SpelledBy(s: string, a: bv4, b: bv4, c: bv4, d: bv4)
    requires |s| == 6 && s[..2] == "0x"
    requires HexDigit(a) == s[2] && HexDigit(b) == s[3] && HexDigit(c) == s[4] && HexDigit(d) == s[5]
    ensures "0x" + [HexDigit(a), HexDigit(b), HexDigit(c), HexDigit(d)] == s
  {
    assert s[0] == s[..2][0] && s[1] == s[..2][1];
  }

  /** Every word is rendered as a literal that reads back as that word, so
      different words are rendered differently. */
  lemma ParseLiteralOf(w: bv16)
    ensures ParseLiteral(Literal(w)) == Some(w)
  {
    var s := Literal(w);
    var n := Nibbles(w);
    HexDigitValue(n[0]);
    HexDigitValue(n[1]);
    HexDigitValue(n[2]);
    HexDigitValue(n[3]);
    assert s[2] == HexDigit(n[0]) && s[3] == HexDigit(n[1]);
    assert s[4] == HexDigit(n[2]) && s[5] == HexDigit(n[3]);
    FromNibblesOf(w);
  }

  /** The decimal digits of a natural number, most significant first, without
      leading zeros (one "0" for zero). */
  function Decimal(n: nat): (s: string)
    ensures |s| >= 1
    ensures forall k :: 0 <= k < |s| ==> '0' <= s[k] <= '9'
    ensures |s| > 1 ==> s[0] != '0'
  {
    if n < 10 then [DigitChar(n)] else Decimal(n / 10) + [DigitChar(n % 10)]
  }

  function DigitChar(d: nat): (c: char)
    requires d < 10
    ensures '0' <= c <= '9'
  {
    ('0' as int + d) as char
  }

  /** `int(s)` on a string of decimal digits. */
  function DigitsValue(s: string): (n: nat)
    requires forall k :: 0 <= k < |s| ==> '0' <= s[k] <= '9'
  {
    if s == [] then 0 else DigitsValue(s[..|s| - 1]) * 10 + (s[|s| - 1] as int - '0' as int)
  }

  /** `int(s)` for a string of digits, or None where Python would raise. */
  function ParseDecimal(s: string): Option<nat>
  {
    if |s| >= 1 && forall k :: 0 <= k < |s| ==> '0' <= s[k] <= '9' then Some(DigitsValue(s)) else None
  }

  /** A number written with `str` reads back as the number. */
  lemma {:induction false} ParseDecimalOf(n: nat)
    ensures ParseDecimal(Decimal(n)) == Some(n)
  {
    if n >= 10 {
      ParseDecimalOf(n / 10);
      var s := Decimal(n);
      assert s[..|s| - 1] == Decimal(n / 10);
      assert s[|s| - 1] as int - '0' as int == n % 10;
      assert DigitsValue(s) == (n / 10) * 10 + n % 10;
    }
  }

  // ---------------------------------------------------------------------------
  // Row layout

  function Min(a: int, b: int): int
  {
    if a <= b then a else b
  }

  /** The rows produced for `i` in `range(start, len(pixels), width)`: row i
      holds `pixels[i + j]` for `j` in `range(min(width, len(pixels) - i))`. */
  function RowsFrom(p: seq<bv16>, width: nat, start: nat): (rows: seq<seq<bv16>>)
    requires width > 0
    ensures forall k :: 0 <= k < |rows| ==> 1 <= |rows[k]| <= width
    decreases |p| - start
  {
    if start >= |p| then []
    else [p[start..start + Min(width, |p| - start)]] + RowsFrom(p, width, start + width)
  }

  /** The rows of the array body, `width` words each but the last. */
  function Rows(p: seq<bv16>, width: nat): seq<seq<bv16>>
    requires width > 0
  {
    RowsFrom(p, width, 0)
  }

  function Flatten(rows: seq<seq<bv16>>): seq<bv16>
  {
    if rows == [] then [] else rows[0] + Flatten(rows[1..])
  }

  lemma {:induction false} FlattenRowsFrom(p: seq<bv16>, width: nat, start: nat)
    requires width > 0 && start <= |p|
    ensures Flatten(RowsFrom(p, width, start)) == p[start..]
    decreases |p| - start
  {
    if start < |p| {
      var next := start + Min(width, |p| - start);
      if next < |p| {
        FlattenRowsFrom(p, width, next);
      } else {
        assert RowsFrom(p, width, start + width) == [];
      }
      assert p[start..] == p[start..next] + p[next..];
    }
  }

  /** Reading the rows in order gives back every pixel word once, in order. */
  lemma FlattenRows(p: seq<bv16>, width: nat)
    requires width > 0
    ensures Flatten(Rows(p, width)) == p
  {
    FlattenRowsFrom(p, width, 0);
  }

  lemma {:induction false} RowsFromCount(p: seq<bv16>, width: nat, start: nat)
    requires width > 0 && start < |p|
    ensures (|RowsFrom(p, width, start)| - 1) * width < |p| - start <= |RowsFrom(p, width, start)| * width
    decreases |p| - start
  {
    var rest := RowsFrom(p, width, start + width);
    assert |RowsFrom(p, width, start)| == 1 + |rest|;
    if start + width < |p| {
      RowsFromCount(p, width, start + width);
      CountStep(|rest|, width, |p| - start);
    } else {
      assert rest == [];
    }
  }

  lemma CountStep(n: int, width: nat, m: int)
    requires (n - 1) * width < m - width <= n * width
    ensures n * width < m <= (n + 1) * width
  {
    assert (n + 1) * width == n * width + width;
    assert (n - 1) * width == n * width - width;
  }

  lemma {:induction false} RowsFromFull(p: seq<bv16>, width: nat, start: nat)
    requires width > 0
    ensures forall k :: 0 <= k < |RowsFrom(p, width, start)| - 1 ==> |RowsFrom(p, width, start)[k]| == width
    decreases |p| - start
  {
    if start < |p| {
      RowsFromFull(p, width, start + width);
      var rest := RowsFrom(p, width, start + width);
      var rows := RowsFrom(p, width, start);
      assert rows == [p[start..start + Min(width, |p| - start)]] + rest;
      forall k | 0 <= k < |rows| - 1
        ensures |rows[k]| == width
      {
        if k == 0 {
          assert rest != [];
          assert start + width < |p|;
          assert Min(width, |p| - start) == width;
          assert rows[0] == p[start..start + width];
        } else {
          assert |rows| == 1 + |rest|;
          assert rows[k] == rest[k - 1];
          assert |rest[k - 1]| == width;
        }
      }
    }
  }

  /** There are ceil(n / width) rows: the smallest count that, `width` words
      to a row, holds all n words. All but the last are full and the last
      holds the remaining 1 .. width words. */
  lemma RowsShape(p: seq<bv16>, width: nat)
    requires width > 0
    ensures var rows := Rows(p, width);
            && (rows == [] <==> p == [])
            && (p != [] ==> (|rows| - 1) * width < |p| <= |rows| * width)
            && (forall k :: 0 <= k < |rows| - 1 ==> |rows[k]| == width)
            && (rows != [] ==> 1 <= |rows[|rows| - 1]| <= width)
  {
    if p != [] {
      RowsFromCount(p, width, 0);
    }
    RowsFromFull(p, width, 0);
  }

  // ---------------------------------------------------------------------------
  // The header text

  /** The preprocessor lines that open every header. */
  const Banner := "#if defined(__AVR__)\n#include <avr/pgmspace.h>\n#elif defined(__PIC32MX__)\n#define PROGMEM\n#elif defined(__arm__)\n#define PROGMEM\n#endif\n"

  function Literals(row: seq<bv16>): (ls: seq<string>)
    ensures |ls| == |row|
    ensures forall k :: 0 <= k < |row| ==> ls[k] == Literal(row[k])
  {
    if row == [] then [] else [Literal(row[0])] + Literals(row[1..])
  }

  function RowTexts(rows: seq<seq<bv16>>): (ts: seq<string>)
    ensures |ts| == |rows|
    ensures forall k :: 0 <= k < |rows| ==> ts[k] == Join(Literals(rows[k]), ", ")
  {
    if rows == [] then [] else [Join(Literals(rows[0]), ", ")] + RowTexts(rows[1..])
  }

  /** The initialiser between the braces: rows joined by ",\n  ". */
  function ArrayBody(p: seq<bv16>, width: nat): string
    requires width > 0
  {
    Join(RowTexts(Rows(p, width)), ",\n  ")
  }

  /** The array declaration: its length is the number of pixels. */
  function Declaration(name: string, p: seq<bv16>, width: nat): string
    requires width > 0
  {
    "const unsigned short " + name + "[" + Decimal(|p|) + "] PROGMEM = {\n  " + ArrayBody(p, width) + "\n};\n"
  }

  /** The comment line naming the source file and the target size. */
  function Comment(srcName: string, width: nat, height: nat): string
  {
    "\n// " + srcName + " -> " + Decimal(width) + " x " + Decimal(height) + " RGB565\n\n"
  }

  /** `convert(src, width, height, var)` given the resized image's pixels. A
      width or height below 1 is rejected by the resize step with ValueError
      (for a width of 0, `range` would raise it too). */
  function Convert(srcName: string, width: int, height: int, name: string, image: seq<Rgb>): (r: Outcome<string>)
    ensures r.Raised? <==> width <= 0 || height <= 0
    ensures r.Raised? ==> r.error == ValueError
    ensures r.Returned? ==> r.value == Banner + Comment(srcName, width, height) + Declaration(name, Pixels(image), width)
  {
    if width <= 0 || height <= 0 then Raised(ValueError)
    else Returned(Banner + Comment(srcName, width, height) + Declaration(name, Pixels(image), width))
  }

  /** The declared length is the pixel count: the text between "[" and "]"
      reads back as |p|. */
  lemma DeclaredLength(name: string, p: seq<bv16>, width: nat)
    requires width > 0
    ensures var d := Declaration(name, p, width);
            var open := |"const unsigned short " + name|;
            && d[open] == '['
            && d[open + 1..open + 1 + |Decimal(|p|)|] == Decimal(|p|)
            && ParseDecimal(d[open + 1..open + 1 + |Decimal(|p|)|]) == Some(|p|)
            && d[open + 1 + |Decimal(|p|)|] == ']'
  {
    var head := "const unsigned short " + name;
    var d := Declaration(name, p, width);
    var tail := "] PROGMEM = {\n  " + ArrayBody(p, width) + "\n};\n";
    assert d == head + "[" + Decimal(|p|) + tail;
    ParseDecimalOf(|p|);
  }

  /** What `convert` returns for a positive size: the banner, the comment
      line, then `const unsigned short name[N] PROGMEM = {` and the array
      body. N reads back as the number of pixels, and the body's
      initialisers read back, in order, as the packed words of the pixels.
      For an image with no pixels the body is empty. */
  lemma ConvertOutput(srcName: string, width: int, height: int, name: string, image: seq<Rgb>)
    requires width > 0 && height > 0
    ensures var r := Convert(srcName, width, height, name, image);
            var body := ArrayBody(Pixels(image), width);
            && r.Returned?
            && r.value == Banner + Comment(srcName, width, height) + "const unsigned short " + name
                            + "[" + Decimal(|image|) + "] PROGMEM = {\n  " + body + "\n};\n"
            && ParseDecimal(Decimal(|image|)) == Some(|image|)
            && (image == [] ==> body == "")
            && (image != [] ==> Tokens(body) == Literals(Pixels(image)))
            && (image != [] ==> |Tokens(body)| == |image|)
            && (image != [] ==> forall k :: 0 <= k < |image| ==> ParseLiteral(Tokens(body)[k]) == Some(Word(image[k])))
  {
    ConvertText(srcName, width, height, name, image);
    ParseDecimalOf(|image|);
    BodyOfPixels(image, width);
  }

  lemma ConvertText(srcName: string, width: int, height: int, name: string, image: seq<Rgb>)
    requires width > 0 && height > 0
    ensures var r := Convert(srcName, width, height, name, image);
            && r.Returned?
            && r.value == Banner + Comment(srcName, width, height) + "const unsigned short " + name
                            + "[" + Decimal(|image|) + "] PROGMEM = {\n  " + ArrayBody(Pixels(image), width) + "\n};\n"
  {
    ConcatRegroup(Banner + Comment(srcName, width, height), "const unsigned short ", name, "[", Decimal(|image|),
                  "] PROGMEM = {\n  ", ArrayBody(Pixels(image), width), "\n};\n");
  }

  lemma ConcatRegroup(head: string, a: string, b: string, c: string, d: string, e: string, f: string, g: string)
    ensures head + (a + b + c + d + e + f + g) == head + a + b + c + d + e + f + g
  {
  }

  /** The array body of an image's words reads back as those words. */
  lemma BodyOfPixels(image: seq<Rgb>, width: nat)
    requires width > 0
    ensures var body := ArrayBody(Pixels(image), width);
            && (image == [] ==> body == "")
            && (image != [] ==> Tokens(body) == Literals(Pixels(image)))
            && (image != [] ==> |Tokens(body)| == |image|)
            && (image != [] ==> forall k :: 0 <= k < |image| ==> ParseLiteral(Tokens(body)[k]) == Some(Word(image[k])))
  {
    var p := Pixels(image);
    if image == [] {
      assert RowsFrom(p, width, 0) == [];
    } else {
      BodyReadsBack(p, width);
    }
  }

  // ---------------------------------------------------------------------------
  // Reading the array body back

  /** Drops the spaces and line breaks that precede an initialiser. */
  function TrimLeft(s: string): (t: string)
    ensures |t| <= |s| && t == s[|s| - |t|..]
    ensures t != [] ==> t[0] != ' ' && t[0] != '\n'
  {
    if s != [] && (s[0] == ' ' || s[0] == '\n') then TrimLeft(s[1..]) else s
  }

  /** The initialisers of a comma-separated list, as a C compiler reads them. */
  function Tokens(s: string): seq<string>
  {
    MapTrim(Split(s, ','))
  }

  function MapTrim(pieces: seq<string>): (ts: seq<string>)
    ensures |ts| == |pieces|
  {
    if pieces == [] then [] else [TrimLeft(pieces[0])] + MapTrim(pieces[1..])
  }

  function TokensOfAll(parts: seq<string>): seq<string>
  {
    if parts == [] then [] else Tokens(parts[0]) + TokensOfAll(parts[1..])
  }

  predicate Blank(ws: string)
  {
    forall k :: 0 <= k < |ws| ==> ws[k] == ' ' || ws[k] == '\n'
  }

  lemma {:induction false} TrimBlank(ws: string, x: string)
    requires Blank(ws)
    ensures TrimLeft(ws + x) == TrimLeft(x)
    decreases |ws|
  {
    if ws != [] {
      assert (ws + x)[0] == ws[0];
      assert ws[0] == ' ' || ws[0] == '\n';
      assert (ws + x)[1..] == ws[1..] + x;
      assert TrimLeft(ws + x) == TrimLeft(ws[1..] + x);
      assert Blank(ws[1..]) by {
        forall k | 0 <= k < |ws| - 1
          ensures ws[1..][k] == ' ' || ws[1..][k] == '\n'
        {
          assert ws[1..][k] == ws[k + 1];
        }
      }
      TrimBlank(ws[1..], x);
    } else {
      assert ws + x == x;
    }
  }

  lemma {:induction false} MapTrimAppend(a: seq<string>, b: seq<string>)
    ensures MapTrim(a + b) == MapTrim(a) + MapTrim(b)
  {
    if a == [] {
      assert a + b == b;
    } else {
      calc {
        MapTrim(a + b);
        { assert (a + b)[0] == a[0] && (a + b)[1..] == a[1..] + b; }
        [TrimLeft(a[0])] + MapTrim(a[1..] + b);
        { MapTrimAppend(a[1..], b); }
        [TrimLeft(a[0])] + (MapTrim(a[1..]) + MapTrim(b));
        ([TrimLeft(a[0])] + MapTrim(a[1..])) + MapTrim(b);
        MapTrim(a) + MapTrim(b);
      }
    }
  }

  /** Whitespace after a separator does not change the initialisers read. */
  lemma TokensAfterBlank(ws: string, x: string)
    requires Blank(ws)
    ensures Tokens(ws + x) == Tokens(x)
  {
    assert forall k :: 0 <= k < |ws| ==> ws[k] != ',';
    var pieces := Split(x, ',');
    var h, t := pieces[0], pieces[1..];
    assert pieces == [h] + t;
    SplitPrefix(ws, x, ',');
    assert Split(ws + x, ',') == [ws + h] + t;
    assert ([ws + h] + t)[1..] == t;
    TrimBlank(ws, h);
    assert MapTrim([ws + h] + t) == [TrimLeft(ws + h)] + MapTrim(t);
    assert MapTrim([h] + t) == [TrimLeft(h)] + MapTrim(t);
  }

  /** Joining with a comma followed by whitespace: the initialisers of the
      result are those of the parts, in order. */
  lemma {:induction false} TokensOfJoin(parts: seq<string>, ws: string)
    requires |parts| >= 1 && Blank(ws)
    ensures Tokens(Join(parts, [','] + ws)) == TokensOfAll(parts)
  {
    if |parts| == 1 {
      assert TokensOfAll(parts) == Tokens(parts[0]) + TokensOfAll([]);
    } else {
      var rest := Join(parts[1..], [','] + ws);
      assert Join(parts, [','] + ws) == parts[0] + [','] + (ws + rest);
      SplitAt(parts[0], ws + rest, ',');
      MapTrimAppend(Split(parts[0], ','), Split(ws + rest, ','));
      TokensAfterBlank(ws, rest);
      TokensOfJoin(parts[1..], ws);
    }
  }

  /** A literal is read as itself. */
  lemma TokensOfLiteral(w: bv16)
    ensures Tokens(Literal(w)) == [Literal(w)]
  {
    var s := Literal(w);
    assert s[0] == s[..2][0] == '0' && s[1] == s[..2][1] == 'x';
    assert forall k :: 0 <= k < |s| ==> s[k] != ',';
  }

  lemma {:induction false} TokensOfLiterals(row: seq<bv16>)
    ensures TokensOfAll(Literals(row)) == Literals(row)
  {
    if row != [] {
      TokensOfLiteral(row[0]);
      TokensOfLiterals(row[1..]);
    }
  }

  /** A row reads back as the literals of its words. */
  lemma RowTokens(row: seq<bv16>)
    requires row != []
    ensures Tokens(Join(Literals(row), ", ")) == Literals(row)
  {
    assert ", " == [','] + " ";
    TokensOfJoin(Literals(row), " ");
    TokensOfLiterals(row);
  }

  lemma {:induction false} LiteralsAppend(a: seq<bv16>, b: seq<bv16>)
    ensures Literals(a + b) == Literals(a) + Literals(b)
  {
  }

  lemma {:induction false} RowTextsTokens(rows: seq<seq<bv16>>)
    requires forall k :: 0 <= k < |rows| ==> rows[k] != []
    ensures TokensOfAll(RowTexts(rows)) == Literals(Flatten(rows))
  {
    if rows != [] {
      RowTokens(rows[0]);
      RowTextsTokens(rows[1..]);
      LiteralsAppend(rows[0], Flatten(rows[1..]));
    }
  }

  /** Read as a C initialiser list, the array body holds exactly the literal
      of every pixel word, in order, each reading back as that word: no
      pixel is lost, duplicated or reordered by the row layout. */
  lemma BodyReadsBack(p: seq<bv16>, width: nat)
    requires width > 0 && p != []
    ensures Tokens(ArrayBody(p, width)) == Literals(p)
    ensures forall k :: 0 <= k < |p| ==> ParseLiteral(Tokens(ArrayBody(p, width))[k]) == Some(p[k])
  {
    BodyTokens(p, width);
    forall k | 0 <= k < |p|
      ensures ParseLiteral(Tokens(ArrayBody(p, width))[k]) == Some(p[k])
    {
      ParseLiteralOf(p[k]);
    }
  }

  lemma BodyTokens(p: seq<bv16>, width: nat)
    requires width > 0 && p != []
    ensures Tokens(ArrayBody(p, width)) == Literals(p)
  {
    var rows := Rows(p, width);
    assert rows != [];
    RowsTokens(rows);
    FlattenRows(p, width);
  }

  /** Rows joined by ",\n  " read back as the literals of all their words. */
  lemma RowsTokens(rows: seq<seq<bv16>>)
    requires rows != []
    requires forall k :: 0 <= k < |rows| ==> rows[k] != []
    ensures Tokens(Join(RowTexts(rows), ",\n  ")) == Literals(Flatten(rows))
  {
    RowSeparator();
    TokensOfJoin(RowTexts(rows), "\n  ");
    RowTextsTokens(rows);
  }

  lemma RowSeparator()
    ensures ",\n  " == [','] + "\n  " && Blank("\n  ")
  {
  }
}
