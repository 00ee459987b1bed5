/**
 * The Pixoo client of client.go: an RGB frame buffer for a square display
 * of `size` x `size` pixels, the drawing operations on it, and the encoder
 * that turns it into a `Draw/SendHttpGif` command.
 *
 * The client is an immutable value; every operation that mutates the Go
 * struct returns the next client instead. The glyph table is a parameter
 * (`Font`), and the HTTP transport is not modelled: `Push` returns the
 * command it would send.
 */
module Pixoo {
  import Base64
  import Arith

  /** The Go `Client` struct. `reqCounter` is the next frame identifier. */
  datatype Client = Client(address: string, size: nat, buffer: seq<int>, reqCounter: int)

  /** The errors DrawCharacter can report. */
  datatype Error = UnrecognizedCharacter

  /** The Go `error` result: nil, or an error. */
  datatype Outcome = Ok | Fail(error: Error)

  /** A glyph table: each character's cells, row-major, three columns per row. */
  type Font = map<char, seq<int>>

  /** One pixel's colour channels. */
  datatype Rgb = Rgb(red: int, green: int, blue: int)

  /** The command descriptor Push hands to the transport. */
  datatype SendHttpGif = SendHttpGif(
    command: string,
    picNum: int,
    picWidth: int,
    picOffset: int,
    picId: int,
    picSpeed: int,
    picData: string)

  /** What Push produces: the next client and the command to send. */
  datatype PushResult = PushResult(next: Client, request: SendHttpGif)

  /** Display duration of the single frame, in milliseconds. */
  const FrameSpeed: int := 1000

  /** The buffer holds three channels for every pixel, and frame ids start at 1. */
  ghost predicate Valid(c: Client) {
    |c.buffer| == 3 * c.size * c.size && c.reqCounter >= 1
  }

  /** True of the coordinates of a pixel on a `size` x `size` display. */
  predicate InRange(size: int, x: int, y: int) {
    0 <= x < size && 0 <= y < size
  }

  // ---------------------------------------------------------------------
  // Construction
  // ---------------------------------------------------------------------

  /** A black display whose first pushed frame will carry id 1. */
  function NewClient(address: string, size: nat): (c: Client)
    ensures Valid(c)
    ensures c.address == address && c.size == size
    ensures |c.buffer| == 3 * size * size
    ensures forall i :: 0 <= i < |c.buffer| ==> c.buffer[i] == 0
    ensures c.reqCounter == 1
  {
    Client(address, size, seq(3 * size * size, _ => 0), 1)
  }

  /** The number of pixels: a third of the buffer. */
  function PixelCount(c: Client): (n: int)
    requires Valid(c)
    ensures n >= 0 && 3 * n == |c.buffer|
  {
    c.size * c.size
  }

  // ---------------------------------------------------------------------
  // Coordinate mapping
  // ---------------------------------------------------------------------

  /** Start of the red channel of pixel (x, y): row-major, three ints per pixel. */
  function GetIndex(size: int, x: int, y: int): (i: int)
    ensures InRange(size, x, y) ==> 0 <= i && i + 2 < 3 * size * size && i % 3 == 0
  {
    var i := (x + y * size) * 3;
    if InRange(size, x, y) then
      Arith.MulMono(y, size - 1, size);
      assert (size - 1) * size == size * size - size;
      i
    else i
  }

  /** The coordinates of the pixel that buffer index `i` belongs to. */
  function PixelOf(size: int, i: int): (p: (int, int))
    requires size > 0
  {
    ((i / 3) % size, (i / 3) / size)
  }

  /** PixelOf undoes GetIndex on the display. */
  lemma PixelOfInverse(size: int, x: int, y: int)
    requires InRange(size, x, y)
    ensures PixelOf(size, GetIndex(size, x, y)) == (x, y)
  {
    Arith.DivModUnique(GetIndex(size, x, y), 3, x + y * size, 0);
    Arith.DivModUnique(x + y * size, size, y, x);
  }

  /** Every buffer index lies in the triplet of exactly one in-range pixel. */
  lemma PixelOfGetIndex(size: int, i: int)
    requires 0 < size && 0 <= i < 3 * size * size
    ensures InRange(size, PixelOf(size, i).0, PixelOf(size, i).1)
    ensures GetIndex(size, PixelOf(size, i).0, PixelOf(size, i).1) == i - i % 3
  {
    var k := i / 3;
    assert k < size * size;
    var x := k % size;
    var y := k / size;
    assert k == y * size + x;
    if y >= size {
      Arith.MulMono(size, y, size);
      assert false;
    }
  }

  /** Distinct in-range pixels have distinct, hence disjoint, triplets. */
  lemma GetIndexInjective(size: int, x1: int, y1: int, x2: int, y2: int)
    requires InRange(size, x1, y1) && InRange(size, x2, y2)
    ensures GetIndex(size, x1, y1) == GetIndex(size, x2, y2) <==> x1 == x2 && y1 == y2
  {
    PixelOfInverse(size, x1, y1);
    PixelOfInverse(size, x2, y2);
  }

  // ---------------------------------------------------------------------
  // Pixel writes
  // ---------------------------------------------------------------------

  /** The colour stored for pixel (x, y). */
  function PixelAt(c: Client, x: int, y: int): Rgb
    requires Valid(c) && InRange(c.size, x, y)
  {
    var i := GetIndex(c.size, x, y);
    Rgb(c.buffer[i], c.buffer[i + 1], c.buffer[i + 2])
  }

  /** Writes red, green and blue at the pixel's triplet; no other entry changes. */
  function SetPixel(c: Client, x: int, y: int, red: int, green: int, blue: int): (d: Client)
    requires Valid(c) && InRange(c.size, x, y)
    ensures Valid(d)
    ensures d.address == c.address && d.size == c.size && d.reqCounter == c.reqCounter
    ensures |d.buffer| == |c.buffer|
    ensures var i := GetIndex(c.size, x, y);
      d.buffer[i] == red && d.buffer[i + 1] == green && d.buffer[i + 2] == blue
    ensures forall j :: 0 <= j < |c.buffer| && !(GetIndex(c.size, x, y) <= j < GetIndex(c.size, x, y) + 3) ==>
      d.buffer[j] == c.buffer[j]
  {
    var i := GetIndex(c.size, x, y);
    c.(buffer := c.buffer[i := red][i + 1 := green][i + 2 := blue])
  }

  /** Reading back after SetPixel: the written pixel has the new colour, every other pixel its old one. */
  lemma PixelAtSetPixel(c: Client, x: int, y: int, red: int, green: int, blue: int, px: int, py: int)
    requires Valid(c) && InRange(c.size, x, y) && InRange(c.size, px, py)
    ensures PixelAt(SetPixel(c, x, y, red, green, blue), px, py)
      == if px == x && py == y then Rgb(red, green, blue) else PixelAt(c, px, py)
  {
    GetIndexInjective(c.size, x, y, px, py);
    var i := GetIndex(c.size, x, y);
    var j := GetIndex(c.size, px, py);
    if i != j {
      assert i == 3 * (i / 3) && j == 3 * (j / 3);
      assert i + 3 <= j || j + 3 <= i;
    }
  }

  /** Two clients of the same size whose pixels all agree have the same buffer. */
  lemma PixelsDetermineBuffer(c: Client, d: Client)
    requires Valid(c) && Valid(d) && c.size == d.size
    requires forall x, y :: InRange(c.size, x, y) ==> PixelAt(c, x, y) == PixelAt(d, x, y)
    ensures c.buffer == d.buffer
  {
    forall i | 0 <= i < |c.buffer|
      ensures c.buffer[i] == d.buffer[i]
    {
      PixelOfGetIndex(c.size, i);
      var p := PixelOf(c.size, i);
      assert PixelAt(c, p.0, p.1) == PixelAt(d, p.0, p.1);
    }
  }

  /** Channel `k` (0 red, 1 green, 2 blue) of a colour. */
  function Channel(colour: Rgb, k: int): int {
    if k == 0 then colour.red else if k == 1 then colour.green else colour.blue
  }

  /**
   * Fill, as client.go writes it: SetPixel at every (x, y), column by
   * column. Afterwards every triplet of the buffer holds (red, green, blue).
   */
  method Fill(c: Client, red: int, green: int, blue: int) returns (d: Client)
    requires Valid(c)
    ensures Valid(d)
    ensures d.address == c.address && d.size == c.size && d.reqCounter == c.reqCounter
    ensures |d.buffer| == |c.buffer|
    ensures forall x, y :: InRange(d.size, x, y) ==> PixelAt(d, x, y) == Rgb(red, green, blue)
    ensures forall i :: 0 <= i < |d.buffer| ==> d.buffer[i] == Channel(Rgb(red, green, blue), i % 3)
  {
    var colour := Rgb(red, green, blue);
    d := c;
    var x := 0;
    while x < c.size
      invariant 0 <= x <= c.size
      invariant Valid(d)
      invariant d.address == c.address && d.size == c.size && d.reqCounter == c.reqCounter
      invariant forall px, py :: InRange(c.size, px, py) && px < x ==> PixelAt(d, px, py) == colour
    {
      var y := 0;
      while y < c.size
        invariant 0 <= y <= c.size
        invariant Valid(d)
        invariant d.address == c.address && d.size == c.size && d.reqCounter == c.reqCounter
        invariant forall px, py :: InRange(c.size, px, py) && (px < x || (px == x && py < y)) ==>
          PixelAt(d, px, py) == colour
      {
        forall px, py | InRange(c.size, px, py)
          ensures PixelAt(SetPixel(d, x, y, red, green, blue), px, py)
            == if px == x && py == y then colour else PixelAt(d, px, py)
        {
          PixelAtSetPixel(d, x, y, red, green, blue, px, py);
        }
        d := SetPixel(d, x, y, red, green, blue);
        y := y + 1;
      }
      x := x + 1;
    }
    forall i | 0 <= i < |d.buffer|
      ensures d.buffer[i] == Channel(colour, i % 3)
    {
      PixelOfGetIndex(d.size, i);
      var p := PixelOf(d.size, i);
      assert PixelAt(d, p.0, p.1) == colour;
    }
  }

  // ---------------------------------------------------------------------
  // Glyph overlay
  // ---------------------------------------------------------------------

  /** Every 1-cell of `glyph`, anchored at (x, y), lands on the display. */
  predicate GlyphFits(glyph: seq<int>, size: int, x: int, y: int) {
    forall i :: 0 <= i < |glyph| && glyph[i] == 1 ==>
      InRange(size, x + i % 3, y + i / 3)
  }

  /**
   * True when pixel (px, py) lies under a 1-cell of `glyph` anchored at
   * (x, y): the cell in column px - x and row py - y.
   */
  predicate Covers(glyph: seq<int>, x: int, y: int, px: int, py: int) {
    var col := px - x;
    var row := py - y;
    0 <= col < 3 && 0 <= row
    && row * 3 + col < |glyph| && glyph[row * 3 + col] == 1
  }

  /** Cell `i` is the only cell of its column and row, so only it covers its own pixel. */
  lemma CellPixel(glyph: seq<int>, i: int, x: int, y: int, px: int, py: int)
    requires 0 <= i < |glyph|
    ensures Covers(glyph[..i + 1], x, y, px, py)
      <==> Covers(glyph[..i], x, y, px, py) || (glyph[i] == 1 && px == x + i % 3 && py == y + i / 3)
  {
    var col := px - x;
    var row := py - y;
    if 0 <= col < 3 && 0 <= row {
      Arith.DivModUnique(row * 3 + col, 3, row, col);
    }
  }

  /**
   * `d` is `c` with the first `n` cells of `glyph`, anchored at (x, y),
   * drawn in `colour`: pixels under those 1-cells have the colour, all
   * others keep their colour in `c`.
   */
  ghost predicate Drawn(c: Client, d: Client, glyph: seq<int>, n: int, x: int, y: int, colour: Rgb)
    requires 0 <= n <= |glyph|
  {
    && Valid(c) && Valid(d)
    && d.address == c.address && d.size == c.size && d.reqCounter == c.reqCounter
    && forall px, py {:trigger PixelAt(d, px, py)} :: InRange(c.size, px, py) ==>
      PixelAt(d, px, py) == if Covers(glyph[..n], x, y, px, py) then colour else PixelAt(c, px, py)
  }

  /** One iteration of DrawCharacter's loop: cell `i` is drawn iff it is a 1-cell. */
  lemma DrawCellStep(c: Client, d: Client, glyph: seq<int>, i: int, x: int, y: int, red: int, green: int, blue: int)
    requires 0 <= i < |glyph| && Drawn(c, d, glyph, i, x, y, Rgb(red, green, blue))
    requires glyph[i] == 1 ==> InRange(d.size, x + i % 3, y + i / 3)
    ensures glyph[i] != 1 ==> Drawn(c, d, glyph, i + 1, x, y, Rgb(red, green, blue))
    ensures glyph[i] == 1 ==>
      Drawn(c, SetPixel(d, x + i % 3, y + i / 3, red, green, blue), glyph, i + 1, x, y, Rgb(red, green, blue))
  {
    var lx := x + i % 3;
    var ly := y + i / 3;
    forall px, py | InRange(c.size, px, py)
      ensures Covers(glyph[..i + 1], x, y, px, py)
        <==> Covers(glyph[..i], x, y, px, py) || (glyph[i] == 1 && px == lx && py == ly)
    {
      CellPixel(glyph, i, x, y, px, py);
    }
    if glyph[i] == 1 {
      forall px, py | InRange(c.size, px, py)
        ensures PixelAt(SetPixel(d, lx, ly, red, green, blue), px, py)
          == if px == lx && py == ly then Rgb(red, green, blue) else PixelAt(d, px, py)
      {
        PixelAtSetPixel(d, lx, ly, red, green, blue, px, py);
      }
    }
  }

  /** Before the first cell, nothing is drawn. */
  lemma DrawnStart(c: Client, glyph: seq<int>, x: int, y: int, colour: Rgb)
    requires Valid(c)
    ensures Drawn(c, c, glyph, 0, x, y, colour)
  {
    assert glyph[..0] == [];
  }

  /**
   * The loop of DrawCharacter: every cell of `glyph` in order, SetPixel at
   * (x + i % 3, y + i / 3) for each 1-cell.
   */
  method DrawGlyph(c: Client, glyph: seq<int>, x: int, y: int, red: int, green: int, blue: int) returns (d: Client)
    requires Valid(c) && GlyphFits(glyph, c.size, x, y)
    ensures Drawn(c, d, glyph, |glyph|, x, y, Rgb(red, green, blue))
  {
    d := c;
    var i := 0;
    DrawnStart(c, glyph, x, y, Rgb(red, green, blue));
    while i < |glyph|
      invariant 0 <= i <= |glyph|
      invariant Drawn(c, d, glyph, i, x, y, Rgb(red, green, blue))
    {
      assert glyph[i] == 1 ==> InRange(d.size, x + i % 3, y + i / 3);
      DrawCellStep(c, d, glyph, i, x, y, red, green, blue);
      if glyph[i] == 1 {
        var localX := i % 3;
        var localY := i / 3;
        d := SetPixel(d, x + localX, y + localY, red, green, blue);
      }
      i := i + 1;
    }
  }

  /**
   * DrawCharacter, as client.go writes it. An unknown character is an
   * error and leaves the client as it was. Otherwise the pixels under the
   * glyph's 1-cells take the colour and every other pixel, including those
   * under 0-cells, keeps its colour.
   */
  method DrawCharacter(c: Client, font: Font, ch: char, x: int, y: int, red: int, green: int, blue: int)
    returns (d: Client, outcome: Outcome)
    requires Valid(c)
    requires ch in font ==> GlyphFits(font[ch], c.size, x, y)
    ensures outcome.Fail? <==> ch !in font
    ensures outcome.Fail? ==> outcome.error == UnrecognizedCharacter && d == c
    ensures Valid(d)
    ensures d.address == c.address && d.size == c.size && d.reqCounter == c.reqCounter
    ensures ch in font ==> forall px, py :: InRange(d.size, px, py) ==>
      PixelAt(d, px, py) == if Covers(font[ch], x, y, px, py) then Rgb(red, green, blue) else PixelAt(c, px, py)
  {
    if ch !in font {
      return c, Fail(UnrecognizedCharacter);
    }
    var glyph := font[ch];
    d := DrawGlyph(c, glyph, x, y, red, green, blue);
    assert glyph[..|glyph|] == glyph;
    outcome := Ok;
  }

  // ---------------------------------------------------------------------
  // Push encoding
  // ---------------------------------------------------------------------

  /** Go's `byte(v)`: the low eight bits of v, i.e. the octet congruent to v modulo 256. */
  function ToByte(v: int): (b: Base64.byte)
    ensures (v - b) % 256 == 0
    ensures 0 <= v < 256 ==> b == v
  {
    v % 256
  }

  /** The buffer narrowed to octets, one per entry, in buffer order. */
  function Narrow(buffer: seq<int>): (bytes: seq<Base64.byte>)
    ensures |bytes| == |buffer|
    ensures forall i :: 0 <= i < |buffer| ==> (buffer[i] - bytes[i]) % 256 == 0
  {
    seq(|buffer|, i requires 0 <= i < |buffer| => ToByte(buffer[i]))
  }

  /**
   * Push without the transport: the buffer narrowed to octets and base64
   * encoded into a `Draw/SendHttpGif` command carrying the current frame
   * id, and the client with its counter one higher and its buffer intact.
   */
  function Push(c: Client): (r: PushResult)
    ensures r.next.address == c.address && r.next.size == c.size && r.next.buffer == c.buffer
    ensures r.next.reqCounter == c.reqCounter + 1
    ensures r.request.command == "Draw/SendHttpGif"
    ensures r.request.picNum == 1 && r.request.picOffset == 0 && r.request.picSpeed == FrameSpeed
    ensures r.request.picWidth == c.size
    ensures r.request.picId == c.reqCounter
    ensures |r.request.picData| == 4 * ((|c.buffer| + 2) / 3)
    ensures Base64.Decode(r.request.picData) == Base64.Some(Narrow(c.buffer))
  {
    var bytes := Narrow(c.buffer);
    var encoded := Base64.Encode(bytes);
    Base64.DecodeEncode(bytes);
    Base64.EncodeLength(bytes);
    var request := SendHttpGif("Draw/SendHttpGif", 1, c.size, 0, c.reqCounter, FrameSpeed, encoded);
    PushResult(c.(reqCounter := c.reqCounter + 1), request)
  }

  /** The frame travels as the padded standard base64 of the narrowed buffer. */
  lemma PushEncodes(c: Client)
    ensures Push(c).request.picData == Base64.Encode(Narrow(c.buffer))
  {
  }

  lemma PushPreservesValid(c: Client)
    requires Valid(c)
    ensures Valid(Push(c).next)
  {
  }

  /** The requests of `n` pushes in a row, with no drawing in between. */
  function PushMany(c: Client, n: nat): (requests: seq<SendHttpGif>)
    decreases n
  {
    if n == 0 then [] else [Push(c).request] + PushMany(Push(c).next, n - 1)
  }

  /** Successive pushes carry consecutive frame ids, starting at the counter, and the same picture. */
  lemma {:induction false} PushManyIds(c: Client, n: nat)
    ensures |PushMany(c, n)| == n
    ensures forall k :: 0 <= k < n ==> PushMany(c, n)[k].picId == c.reqCounter + k
    ensures forall k :: 0 <= k < n ==> PushMany(c, n)[k].picData == Base64.Encode(Narrow(c.buffer))
    decreases n
  {
    if n > 0 {
      PushManyIds(Push(c).next, n - 1);
    }
  }

  /** A new client's first frame has id 1, and the next push's id is one higher. */
  lemma FirstPushes(address: string, size: nat)
    ensures Push(NewClient(address, size)).request.picId == 1
    ensures Push(Push(NewClient(address, size)).next).request.picId == 2
  {
  }

  /** Out-of-range channel values wrap around modulo 256 in the encoded frame. */
  lemma NarrowBoundaryValues()
    ensures Narrow([0, 1, 255, 256, -1]) == [0, 1, 255, 0, 255]
  {
  }

  /** The buffer of a 2 x 2 display after painting pixel (1, 1) red. */
  lemma TwoByTwoBuffer()
    ensures SetPixel(NewClient("10.0.0.5", 2), 1, 1, 255, 0, 0).buffer == [0, 0, 0, 0, 0, 0, 0, 0, 0, 255, 0, 0]
  {
    var c := NewClient("10.0.0.5", 2);
    assert c.buffer == [0, 0, 0, 0, 0, 0, 0, 0, 0, 0, 0, 0];
  }

  /**
   * A 2 x 2 display with pixel (1, 1) set to red: the first pushed frame
   * has width 2, id 1 and carries the base64 of nine zero octets followed
   * by 0xFF 0x00 0x00; the counter then stands at 2.
   */
  lemma TwoByTwoScenario()
    ensures var c := SetPixel(NewClient("10.0.0.5", 2), 1, 1, 255, 0, 0);
      && Push(c).request.picWidth == 2
      && Push(c).request.picId == 1
      && Push(c).request.picData == Base64.Encode([0, 0, 0, 0, 0, 0, 0, 0, 0, 255, 0, 0])
      && Base64.Decode(Push(c).request.picData) == Base64.Some([0, 0, 0, 0, 0, 0, 0, 0, 0, 255, 0, 0])
      && Push(c).next.reqCounter == 2
  {
    TwoByTwoBuffer();
    var bytes: seq<int> := [0, 0, 0, 0, 0, 0, 0, 0, 0, 255, 0, 0];
    assert Narrow(bytes) == bytes by {
      forall i | 0 <= i < |bytes|
        ensures Narrow(bytes)[i] == bytes[i]
      {
        assert 0 <= bytes[i] < 256;
      }
    }
  }
}
