/** The SVG serialiser (svg_generator.go).

    The writer appends an XML declaration and an `<svg>` root, one `<rect>`
    per visible block, and the closing tag to its output file. Here the file
    is the character sequence `written`; the text is specified by `Document`,
    and `ParseDocument` reads every block back out of it.
 */
module SvgGenerator {
  import opened Wrappers
  import opened Strconv
  import opened ImageProcessor

  // ---------------------------------------------------------------------
  // Colours
  // ---------------------------------------------------------------------

  /** `v >> 4`: the high nibble of a byte. */
  function Hi(v: uint8): (r: uint8)
    ensures r < 16 && r as int * 16 <= v as int < r as int * 16 + 16
  {
    v / 16
  }

  /** `v & 0x0F`: the low nibble of a byte. */
  function Lo(v: uint8): (r: uint8)
    ensures r < 16 && v as int == Hi(v) as int * 16 + r as int
  {
    v % 16
  }

  /** A byte has equal nibbles exactly when it is a multiple of 0x11. */
  lemma EqualNibbles(v: uint8)
    ensures Hi(v) == Lo(v) <==> v % 17 == 0
  {
    var h, l := Hi(v) as int, Lo(v) as int;
    assert v as int == 16 * h + l;
    if h == l {
      assert v as int == 17 * h;
    }
    if v % 17 == 0 {
      var k := v as int / 17;
      assert v as int == 16 * k + k;
      assert k < 16;
    }
  }

  /** The value of a lower-case hexadecimal digit. */
  function HexValue(c: char): (r: Option<int>)
    ensures r.Some? ==> 0 <= r.value < 16
  {
    if '0' <= c <= '9' then Some(c as int - '0' as int)
    else if 'a' <= c <= 'f' then Some(c as int - 'a' as int + 10)
    else None
  }

  /** `hexChar`: '0' + b below 10 and 'a' + (b - 10) from 10 on, computed
      on bytes (so wrapping modulo 256 for b above 255 - 87). On a nibble it
      is the lower-case hexadecimal digit of b, which `HexValue` reads back. */
  function HexChar(b: uint8): (c: char)
    ensures b < 10 ==> '0' <= c <= '9'
    ensures 10 <= b < 16 ==> 'a' <= c <= 'f'
    ensures b < 16 ==> HexValue(c) == Some(b as int)
  {
    if b < 10 then ('0' as int + b as int) as char
    else (('a' as int + (b as int - 10)) % 256) as char
  }

  /** Distinct nibbles have distinct digits. */
  lemma HexCharInjective(b1: uint8, b2: uint8)
    requires b1 < 16 && b2 < 16
    ensures HexChar(b1) == HexChar(b2) <==> b1 == b2
  {
    if HexChar(b1) == HexChar(b2) {
      assert HexValue(HexChar(b1)) == HexValue(HexChar(b2));
    }
  }

  /** Every channel has equal nibbles, so `#rgb` shorthand applies. */
  predicate Shorthand(r: uint8, g: uint8, b: uint8)
    ensures Shorthand(r, g, b) <==> r % 0x11 == 0 && g % 0x11 == 0 && b % 0x11 == 0
  {
    EqualNibbles(r);
    EqualNibbles(g);
    EqualNibbles(b);
    Hi(r) == Lo(r) && Hi(g) == Lo(g) && Hi(b) == Lo(b)
  }

  /** `optimizeColor`: the CSS hex colour of (r, g, b) (CSS Color Module
      Level 3, section 4.2.1), three digits when every channel has equal
      nibbles and six otherwise. */
  function OptimizeColor(r: uint8, g: uint8, b: uint8): (s: string)
    ensures |s| > 0 && s[0] == '#'
    ensures |s| == 4 <==> Shorthand(r, g, b)
    ensures |s| == 7 <==> !Shorthand(r, g, b)
  {
    if Shorthand(r, g, b) then
      "#" + [HexChar(Hi(r)), HexChar(Hi(g)), HexChar(Hi(b))]
    else
      "#" + [HexChar(Hi(r)), HexChar(Lo(r)), HexChar(Hi(g)), HexChar(Lo(g)), HexChar(Hi(b)), HexChar(Lo(b))]
  }

  /** The byte written as the two hexadecimal digits hi and lo. */
  function HexByte(hi: char, lo: char): Option<uint8> {
    var h :- HexValue(hi);
    var l :- HexValue(lo);
    Some((h * 16 + l) as uint8)
  }

  /** Reads a hex colour: '#' and either three digits, each standing for a
      byte with that digit in both nibbles, or six digits, two per channel. */
  function ParseColor(s: string): Option<(uint8, uint8, uint8)> {
    if |s| == 4 && s[0] == '#' then
      var r :- HexByte(s[1], s[1]);
      var g :- HexByte(s[2], s[2]);
      var b :- HexByte(s[3], s[3]);
      Some((r, g, b))
    else if |s| == 7 && s[0] == '#' then
      var r :- HexByte(s[1], s[2]);
      var g :- HexByte(s[3], s[4]);
      var b :- HexByte(s[5], s[6]);
      Some((r, g, b))
    else
      None
  }

  lemma HexByteOf(v: uint8)
    ensures HexByte(HexChar(Hi(v)), HexChar(Lo(v))) == Some(v)
  {
  }

  /** Decoding the colour text gives the channels back, the shorthand digits
      doubled. */
  lemma ParseOptimizeColor(r: uint8, g: uint8, b: uint8)
    ensures ParseColor(OptimizeColor(r, g, b)) == Some((r, g, b))
  {
    HexByteOf(r);
    HexByteOf(g);
    HexByteOf(b);
  }

  lemma OptimizeColorShorthandExample()
    ensures OptimizeColor(0x11, 0x22, 0x33) == "#123"
  {
  }

  lemma OptimizeColorFullExample()
    ensures OptimizeColor(0x12, 0x34, 0x56) == "#123456"
  {
  }

  // ---------------------------------------------------------------------
  // Opacity
  // ---------------------------------------------------------------------

  /** `float64(a) / 255.0` printed with three decimals, in thousandths:
      1000a/255 rounded to the nearest integer. The distance to that integer
      is at most 50/102, so there is never a tie (and the float64 error of the
      division is far too small to move the result across one). */
  function Thousandths(a: uint8): (t: int)
    ensures -50 <= 400 * (a as int) - 102 * t <= 50
    ensures a < 255 ==> 0 <= t < 1000
  {
    var n: int := 400 * (a as int) + 51;
    var t: int := n / 102;
    var r: int := n % 102;
    assert n == 102 * t + r && 0 <= r < 102;
    t
  }

  /** The `fill-opacity` text of alpha a < 255: "0." and three digits. */
  function OpacityText(a: uint8): (s: string)
    requires a < 255
    ensures |s| == 5
  {
    var t := Thousandths(a);
    "0." + [Digit(t / 100), Digit(t / 10 % 10), Digit(t % 10)]
  }

  /** The alpha whose opacity is t thousandths, rounded. */
  function AlphaOf(t: int): int {
    (51 * t + 100) / 200
  }

  /** The rounding loses nothing: the alpha comes back from its thousandths. */
  lemma AlphaOfThousandths(a: uint8)
    ensures AlphaOf(Thousandths(a)) == a as int
  {
    var n := 51 * Thousandths(a) + 100;
    assert 200 * (a as int) + 75 <= n <= 200 * (a as int) + 125;
    assert n == 200 * (n / 200) + n % 200;
  }

  /** Reads an opacity text "0.ddd" back into an alpha byte. */
  function ParseOpacity(s: string): Option<uint8> {
    if |s| == 5 && s[..2] == "0." && AllDigits(s[2..]) then
      var t := DigitsValue(s[2..]);
      if AlphaOf(t) < 256 then Some(AlphaOf(t) as uint8) else None
    else
      None
  }

  /** Three digits read back as the number below 1000 they were made from. */
  lemma ThreeDigitsValue(t: int)
    requires 0 <= t < 1000
    ensures DigitsValue([Digit(t / 100), Digit(t / 10 % 10), Digit(t % 10)]) == t
  {
    var d := [Digit(t / 100), Digit(t / 10 % 10), Digit(t % 10)];
    var q := t / 10;
    assert q / 10 == t / 100 && q % 10 == t / 10 % 10;
    assert d[..2][..1] == [d[0]] && d[..2][..1][..0] == [];
    assert DigitsValue(d[..2][..1]) == q / 10;
    assert q == q / 10 * 10 + q % 10;
    assert DigitsValue(d[..2]) == q;
    assert t == q * 10 + t % 10;
  }

  lemma ParseOpacityText(a: uint8)
    requires a < 255
    ensures ParseOpacity(OpacityText(a)) == Some(a)
  {
    var t := Thousandths(a);
    var d := [Digit(t / 100), Digit(t / 10 % 10), Digit(t % 10)];
    var s := OpacityText(a);
    assert s[..2] == "0." && s[2..] == d;
    ThreeDigitsValue(t);
    AlphaOfThousandths(a);
  }

  // ---------------------------------------------------------------------
  // The document
  // ---------------------------------------------------------------------

  /** The text `writeHeader` writes: the XML declaration and the `<svg>`
      start tag with the image size. */
  function Header(width: int, height: int): string {
    "<?xml version=\"1.0\" encoding=\"UTF-8\"?><svg width=\"" + Itoa(width) + "\" height=\"" + Itoa(height)
      + "\" xmlns=\"http://www.w3.org/2000/svg\">"
  }

  /** The start of a block's element, up to and including its fill colour. */
  function RectStart(b: Block): string {
    "<rect x=\"" + Itoa(b.X) + "\" y=\"" + Itoa(b.Y) + "\" width=\"" + Itoa(b.Width)
      + "\" height=\"" + Itoa(b.Height) + "\" fill=\"" + OptimizeColor(b.R, b.G, b.B)
  }

  /** The text `writeBlock` writes: nothing for a fully transparent block,
      otherwise a `<rect>` with the origin, the size and the fill colour, and
      a `fill-opacity` only when the block is not fully opaque. */
  function RectElement(b: Block): (s: string)
    ensures s == [] <==> b.A == 0
  {
    if b.A == 0 then []
    else if b.A < 255 then RectStart(b) + "\" fill-opacity=\"" + OpacityText(b.A) + "\"/>"
    else RectStart(b) + "\"/>"
  }

  const Footer := "</svg>"

  /** The elements of the blocks, in order. */
  function Body(blocks: seq<Block>): (s: string)
    ensures s == [] <==> forall i :: 0 <= i < |blocks| ==> blocks[i].A == 0
  {
    if blocks == [] then [] else RectElement(blocks[0]) + Body(blocks[1..])
  }

  /** The whole file `WriteBlocks` writes. */
  function Document(width: int, height: int, blocks: seq<Block>): (s: string)
    ensures |s| >= |Header(width, height)| + |Footer|
    ensures s[..|Header(width, height)|] == Header(width, height)
    ensures s[|s| - |Footer|..] == Footer
  {
    Header(width, height) + Body(blocks) + Footer
  }

  /** The blocks that get an element: those not fully transparent, in order. */
  function Visible(blocks: seq<Block>): (r: seq<Block>)
    ensures |r| <= |blocks|
    ensures forall i :: 0 <= i < |r| ==> r[i].A != 0
  {
    if blocks == [] then []
    else if blocks[0].A == 0 then Visible(blocks[1..])
    else [blocks[0]] + Visible(blocks[1..])
  }

  lemma Assoc(p: string, q: string, r: string)
    ensures p + q + r == p + (q + r)
  {
  }

  lemma {:induction false} BodyAppend(blocks: seq<Block>, i: int)
    requires 0 <= i < |blocks|
    ensures Body(blocks[..i + 1]) == Body(blocks[..i]) + RectElement(blocks[i])
    decreases i
  {
    if i > 0 {
      assert blocks[..i + 1][1..] == blocks[1..][..i];
      assert blocks[..i][1..] == blocks[1..][..i - 1];
      BodyAppend(blocks[1..], i - 1);
      Assoc(RectElement(blocks[0]), Body(blocks[1..][..i - 1]), RectElement(blocks[i]));
    } else {
      assert blocks[..1][1..] == [];
    }
  }

  /** With no blocks the file is the header followed by the footer. */
  lemma DocumentEmpty(width: int, height: int)
    ensures Document(width, height, []) == Header(width, height) + Footer
  {
  }

  // ---------------------------------------------------------------------
  // Reading the document back
  // ---------------------------------------------------------------------

  predicate NoQuote(s: string) {
    forall i :: 0 <= i < |s| ==> s[i] != '"'
  }

  /** The text after the literal lit, when s starts with it. */
  function Literal(lit: string, s: string): (r: Option<string>)
    ensures r.Some? ==> |r.value| == |s| - |lit|
  {
    if lit == [] then Some(s)
    else if s != [] && s[0] == lit[0] then Literal(lit[1..], s[1..])
    else None
  }

  /** The index of the first '"' in s, or |s| when there is none. */
  function QuoteIndex(s: string): (k: nat)
    ensures k <= |s|
  {
    if s == [] || s[0] == '"' then 0 else QuoteIndex(s[1..]) + 1
  }

  /** Reads the text up to the next '"': that text and the rest from the '"' on. */
  function UntilQuote(s: string): (r: (string, string))
    ensures |r.1| <= |s|
  {
    var k := QuoteIndex(s);
    (s[..k], s[k..])
  }

  /** Reads the literal lit and then a decimal integer. */
  function IntField(lit: string, s: string): (r: Option<(int, string)>)
    ensures r.Some? ==> |r.value.1| < |s|
  {
    var t :- Literal(lit, s);
    ReadInt(t)
  }

  /** Reads `" fill="` and the colour text up to the next '"'. */
  function FillField(s: string): (r: Option<((uint8, uint8, uint8), string)>)
    ensures r.Some? ==> |r.value.1| < |s|
  {
    var t :- Literal("\" fill=\"", s);
    var color := UntilQuote(t);
    var rgb :- ParseColor(color.0);
    Some((rgb, color.1))
  }

  /** Reads the end of an element: `" fill-opacity="0.ddd"/>` gives the
      alpha those thousandths stand for, a bare `"/>` gives 255. */
  function AlphaTail(s: string): Option<(uint8, string)> {
    match Literal("\" fill-opacity=\"", s)
    case Some(t) =>
      var opacity := UntilQuote(t);
      var a :- ParseOpacity(opacity.0);
      var rest :- Literal("\"/>", opacity.1);
      Some((a, rest))
    case None =>
      var rest :- Literal("\"/>", s);
      Some((255, rest))
  }

  /** Reads one `<rect>` element at the front of s: the block it describes
      and the text after it. */
  function ParseRect(s: string): (r: Option<(Block, string)>)
    ensures r.Some? ==> |r.value.1| < |s|
  {
    var x :- IntField("<rect x=\"", s);
    var y :- IntField("\" y=\"", x.1);
    var w :- IntField("\" width=\"", y.1);
    var h :- IntField("\" height=\"", w.1);
    var fill :- FillField(h.1);
    var a :- AlphaTail(fill.1);
    Some((Block(x.0, y.0, w.0, h.0, fill.0.0, fill.0.1, fill.0.2, a.0), a.1))
  }

  /** Reads elements up to the footer, which must end the text. */
  function ParseBody(s: string): Option<seq<Block>>
    decreases |s|
  {
    match ParseRect(s)
    case Some(r) =>
      var rest :- ParseBody(r.1);
      Some([r.0] + rest)
    case None =>
      if s == Footer then Some([]) else None
  }

  /** Reads a whole file: the width, the height and the blocks. */
  function ParseDocument(s: string): Option<(int, int, seq<Block>)> {
    var s0 :- Literal("<?xml version=\"1.0\" encoding=\"UTF-8\"?><svg width=\"", s);
    var width :- ReadInt(s0);
    var s1 :- Literal("\" height=\"", width.1);
    var height :- ReadInt(s1);
    var body :- Literal("\" xmlns=\"http://www.w3.org/2000/svg\">", height.1);
    var blocks :- ParseBody(body);
    Some((width.0, height.0, blocks))
  }

  lemma {:induction false} LiteralOf(lit: string, rest: string)
    ensures Literal(lit, lit + rest) == Some(rest)
  {
    if lit != [] {
      assert (lit + rest)[1..] == lit[1..] + rest;
      LiteralOf(lit[1..], rest);
    } else {
      assert lit + rest == rest;
    }
  }

  lemma {:induction false} UntilQuoteOf(value: string, rest: string)
    requires NoQuote(value) && rest != [] && rest[0] == '"'
    ensures UntilQuote(value + rest) == (value, rest)
  {
    QuoteIndexOf(value, rest);
  }

  lemma {:induction false} QuoteIndexOf(value: string, rest: string)
    requires NoQuote(value) && rest != [] && rest[0] == '"'
    ensures QuoteIndex(value + rest) == |value|
  {
    if value != [] {
      assert (value + rest)[1..] == value[1..] + rest;
      QuoteIndexOf(value[1..], rest);
    } else {
      assert value + rest == rest;
    }
  }

  lemma ColorNoQuote(r: uint8, g: uint8, b: uint8)
    ensures NoQuote(OptimizeColor(r, g, b))
  {
  }

  lemma OpacityNoQuote(a: uint8)
    requires a < 255
    ensures NoQuote(OpacityText(a))
  {
  }

  lemma IntFieldOf(lit: string, n: int, rest: string)
    requires rest != [] && rest[0] == '"'
    ensures IntField(lit, lit + (Itoa(n) + rest)) == Some((n, rest))
  {
    LiteralOf(lit, Itoa(n) + rest);
    ReadItoa(n, rest);
  }

  lemma FillFieldOf(r: uint8, g: uint8, b: uint8, rest: string)
    requires rest != [] && rest[0] == '"'
    ensures FillField("\" fill=\"" + (OptimizeColor(r, g, b) + rest)) == Some(((r, g, b), rest))
  {
    LiteralOf("\" fill=\"", OptimizeColor(r, g, b) + rest);
    ColorNoQuote(r, g, b);
    UntilQuoteOf(OptimizeColor(r, g, b), rest);
    ParseOptimizeColor(r, g, b);
  }

  lemma AlphaTailOpaque(rest: string)
    ensures AlphaTail("\"/>" + rest) == Some((255, rest))
  {
    var s := "\"/>" + rest;
    assert s[1..][0] == '/';
    assert Literal("\" fill-opacity=\"", s).None?;
    LiteralOf("\"/>", rest);
  }

  lemma AlphaTailTranslucent(a: uint8, rest: string)
    requires 0 < a < 255
    ensures AlphaTail("\" fill-opacity=\"" + (OpacityText(a) + ("\"/>" + rest))) == Some((a, rest))
  {
    var op := OpacityText(a);
    LiteralOf("\" fill-opacity=\"", op + ("\"/>" + rest));
    OpacityNoQuote(a);
    UntilQuoteOf(op, "\"/>" + rest);
    ParseOpacityText(a);
    LiteralOf("\"/>", rest);
  }

  /** The end of a visible block's element, from `" fill="` on, reads back
      as its colour and alpha. */
  lemma ElementTailOf(b: Block, rest: string) returns (tail: string)
    requires b.A != 0
    ensures RectElement(b) + rest == RectStart(b) + tail
    ensures tail != [] && tail[0] == '"'
    ensures AlphaTail(tail) == Some((b.A, rest))
  {
    if b.A < 255 {
      var op := OpacityText(b.A);
      tail := "\" fill-opacity=\"" + (op + ("\"/>" + rest));
      Assoc(RectStart(b) + "\" fill-opacity=\"" + op, "\"/>", rest);
      Assoc(RectStart(b) + "\" fill-opacity=\"", op, "\"/>" + rest);
      Assoc(RectStart(b), "\" fill-opacity=\"", op + ("\"/>" + rest));
      AlphaTailTranslucent(b.A, rest);
    } else {
      tail := "\"/>" + rest;
      Assoc(RectStart(b), "\"/>", rest);
      AlphaTailOpaque(rest);
    }
  }

  /** The element of a visible block reads back as that block, whatever
      follows it. */
  lemma ParseRectElement(b: Block, rest: string)
    requires b.A != 0
    ensures ParseRect(RectElement(b) + rest) == Some((b, rest))
  {
    var t5 := ElementTailOf(b, rest);
    var color := OptimizeColor(b.R, b.G, b.B);
    var p0 := "<rect x=\"" + Itoa(b.X);
    var p1 := p0 + "\" y=\"";
    var p2 := p1 + Itoa(b.Y);
    var p3 := p2 + "\" width=\"";
    var p4 := p3 + Itoa(b.Width);
    var p5 := p4 + "\" height=\"";
    var p6 := p5 + Itoa(b.Height);
    var t4 := color + t5;
    var t3 := "\" fill=\"" + t4;
    var t2 := Itoa(b.Height) + t3;
    var t1 := "\" height=\"" + t2;
    var t0 := Itoa(b.Width) + t1;
    var u3 := "\" width=\"" + t0;
    var u2 := Itoa(b.Y) + u3;
    var u1 := "\" y=\"" + u2;
    var u0 := Itoa(b.X) + u1;
    Assoc(p6 + "\" fill=\"", color, t5);
    Assoc(p6, "\" fill=\"", t4);
    Assoc(p5, Itoa(b.Height), t3);
    Assoc(p4, "\" height=\"", t2);
    Assoc(p3, Itoa(b.Width), t1);
    Assoc(p2, "\" width=\"", t0);
    Assoc(p1, Itoa(b.Y), u3);
    Assoc(p0, "\" y=\"", u2);
    Assoc("<rect x=\"", Itoa(b.X), u1);
    assert RectElement(b) + rest == "<rect x=\"" + u0;
    IntFieldOf("<rect x=\"", b.X, u1);
    IntFieldOf("\" y=\"", b.Y, u3);
    IntFieldOf("\" width=\"", b.Width, t1);
    IntFieldOf("\" height=\"", b.Height, t3);
    FillFieldOf(b.R, b.G, b.B, t5);
  }

  /** The elements and the footer read back as the visible blocks. */
  lemma {:induction false} ParseBodyOf(blocks: seq<Block>)
    ensures ParseBody(Body(blocks) + Footer) == Some(Visible(blocks))
    decreases |blocks|
  {
    if blocks == [] {
      assert Body(blocks) + Footer == Footer;
      assert Literal("<rect x=\"", Footer).None?;
    } else {
      var b := blocks[0];
      var rest := Body(blocks[1..]) + Footer;
      Assoc(RectElement(b), Body(blocks[1..]), Footer);
      ParseBodyOf(blocks[1..]);
      if b.A != 0 {
        ParseRectElement(b, rest);
      } else {
        assert Body(blocks) + Footer == rest;
      }
    }
  }

  /** The file reads back as its width, its height and the visible blocks,
      in the order given. */
  lemma ParseDocumentOf(width: int, height: int, blocks: seq<Block>)
    ensures ParseDocument(Document(width, height, blocks)) == Some((width, height, Visible(blocks)))
  {
    var h0 := "<?xml version=\"1.0\" encoding=\"UTF-8\"?><svg width=\"";
    var h2 := "\" xmlns=\"http://www.w3.org/2000/svg\">";
    var t3 := Body(blocks) + Footer;
    var t2 := h2 + t3;
    var t1 := Itoa(height) + t2;
    var t0 := "\" height=\"" + t1;
    var u0 := Itoa(width) + t0;
    Assoc(Header(width, height), Body(blocks), Footer);
    Assoc(h0 + Itoa(width) + "\" height=\"" + Itoa(height), h2, t3);
    Assoc(h0 + Itoa(width) + "\" height=\"", Itoa(height), t2);
    Assoc(h0 + Itoa(width), "\" height=\"", t1);
    Assoc(h0, Itoa(width), t0);
    assert Document(width, height, blocks) == h0 + u0;
    LiteralOf(h0, u0);
    ReadItoa(width, t0);
    LiteralOf("\" height=\"", t1);
    ReadItoa(height, t2);
    LiteralOf(h2, t3);
    ParseBodyOf(blocks);
  }

  // ---------------------------------------------------------------------
  // The writer
  // ---------------------------------------------------------------------

  /** `SVGWriter`: the output file, reduced to the text written to it, and
      the image size the header declares. */
  class SVGWriter {
    const width: int
    const height: int
    var written: string

    /** `NewSVGWriter` on a freshly created, empty file. */
    constructor(width: int, height: int)
      ensures this.width == width && this.height == height && written == []
    {
      this.width := width;
      this.height := height;
      written := [];
    }

    /** `WriteBlocks`: the header, every block's element in order, the footer. */
    method WriteBlocks(blocks: seq<Block>)
      modifies this
      ensures written == old(written) + Document(width, height, blocks)
    {
      WriteHeader();
      ghost var start := old(written) + Header(width, height);
      for i := 0 to |blocks|
        invariant written == start + Body(blocks[..i])
      {
        WriteBlock(blocks[i]);
        BodyAppend(blocks, i);
        Assoc(start, Body(blocks[..i]), RectElement(blocks[i]));
      }
      assert blocks[..|blocks|] == blocks;
      WriteFooter();
      Assoc(old(written), Header(width, height), Body(blocks));
      Assoc(old(written), Header(width, height) + Body(blocks), Footer);
    }

    /** `writeHeader`. */
    method WriteHeader()
      modifies this
      ensures written == old(written) + Header(width, height)
    {
      var header := "<?xml version=\"1.0\" encoding=\"UTF-8\"?><svg width=\"" +
        Itoa(width) + "\" height=\"" + Itoa(height) +
        "\" xmlns=\"http://www.w3.org/2000/svg\">";
      written := written + header;
    }

    /** `writeBlock`: builds the element piece by piece as the source does. */
    method WriteBlock(block: Block)
      modifies this
      ensures written == old(written) + RectElement(block)
    {
      if block.A == 0 {
        return;
      }
      var color := OptimizeColor(block.R, block.G, block.B);
      var rect := "<rect x=\"" + Itoa(block.X) + "\" y=\"" + Itoa(block.Y) +
        "\" width=\"" + Itoa(block.Width) + "\" height=\"" + Itoa(block.Height) +
        "\" fill=\"" + color;
      if block.A < 255 {
        rect := rect + "\" fill-opacity=\"" + OpacityText(block.A);
      }
      rect := rect + "\"/>";
      written := written + rect;
    }

    /** `writeFooter`. */
    method WriteFooter()
      modifies this
      ensures written == old(written) + Footer
    {
      written := written + "</svg>";
    }
  }

  /** `generateSVGFile`: the text of the file written for the blocks of a
      width x height image. */
  method GenerateSvgFile(blocks: seq<Block>, width: int, height: int) returns (text: string)
    ensures text == Document(width, height, blocks)
  {
    var writer := new SVGWriter(width, height);
    writer.WriteBlocks(blocks);
    text := writer.written;
  }
}
