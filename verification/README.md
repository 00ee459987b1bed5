# pixgo frame buffer and push encoder, in Dafny

This project models the core of `pixgo`, a Go client for Pixoo pixel-matrix
displays. A client holds an RGB frame buffer for a square display of
`Size` x `Size` pixels, three ints per pixel in row-major order, and a
request counter that starts at 1. Callers paint pixels (`SetPixel`), the
whole screen (`Fill`) or bitmap glyphs (`DrawCharacter`). `Push` then narrows
the buffer to bytes, base64-encodes them and wraps them in a
`Draw/SendHttpGif` command whose `PicID` is the counter, which then goes up
by one.

Files:

- `client.dfy`, module `Pixoo`: the client, the drawing operations and `Push`.
  The Go struct is mutated in place. Here the client is an immutable
  datatype, and every mutating operation returns the next client.
  `SetPixel` and `Push` are functions. `Fill` and `DrawCharacter` are methods
  whose loops follow the Go loops.
- `base64.dfy`, module `Base64`: the encoding of section 4 of RFC 4648
  (standard alphabet, `=` padding), plus a decoder as its partner.
  `DecodeEncode` proves that decoding gives back every encoded byte string.
- `arith.dfy`, module `Arith`: facts about quotients and remainders that the
  coordinate and base64 proofs use.

How the model follows the code:

- Go's `byte(v)` keeps the low eight bits of `v`. For every integer that is
  the value congruent to `v` modulo 256, which is Dafny's `v % 256`.
  `ToByte` states it that way, so negative values and values above 255 wrap,
  as in the Go code.
- The glyph table `chars` is defined in a file that is not part of this
  model. It is a parameter here: `Font`, a map from characters to cell
  sequences. As in the Go loop, a cell is drawn exactly when its value is 1.
  Its column is `i % 3` and its row is `i / 3`.
- `DrawCharacter` reports its one error as `UnrecognizedCharacter`, following
  the code's message "unrecognized character". The lookup happens before
  any write, so the error leaves the client unchanged.
- The request counter is incremented before the request is sent. `Push`
  therefore always returns a client whose counter is one higher, whatever
  the transport would do.

## Model

| member | source | states |
|---|---|---|
| Pixoo.NewClient | client.go:14-20 | a new client has a zero buffer of `3*size*size` entries, counter 1, and the given address and size |
| Pixoo.PixelCount | client.go:45-47 | the pixel count is a third of the buffer length |
| Pixoo.GetIndex | client.go:85-87 | for in-range (x, y) the index is a multiple of 3 and its triplet lies inside the buffer |
| Pixoo.PixelOfInverse | client.go:85-87 | the index of (x, y) decodes back to (x, y): column is `(i/3) % size`, row is `(i/3) / size` |
| Pixoo.PixelOfGetIndex | client.go:85-87 | every buffer index belongs to the triplet of exactly one in-range pixel, which starts at `i - i%3` |
| Pixoo.GetIndexInjective | client.go:85-87 | two in-range pixels have the same index if and only if they are the same pixel |
| Pixoo.SetPixel | client.go:116-121 | red, green, blue land at index, index+1, index+2; every other entry, the length, the size and the counter are unchanged |
| Pixoo.PixelAtSetPixel | client.go:116-121 | reading back after SetPixel gives the new colour at (x, y) and the old colour at every other pixel |
| Pixoo.PixelsDetermineBuffer | client.go:85-87 | two buffers whose pixels all read the same are equal, so pixel-level statements fix the whole buffer |
| Pixoo.Fill | client.go:107-113 | after Fill every pixel reads (red, green, blue), and every buffer entry holds the channel of its position; length, size and counter are unchanged |
| Pixoo.CellPixel | client.go:96-102 | glyph cell i is the only cell that lands on pixel (x + i%3, y + i/3) |
| Pixoo.DrawCellStep | client.go:96-102 | one loop iteration draws cell i if and only if its value is 1, and keeps all earlier cells drawn |
| Pixoo.DrawGlyph | client.go:96-102 | after the loop, pixels under 1-cells have the colour and all other pixels keep their old colour |
| Pixoo.DrawCharacter | client.go:90-104 | an unknown character gives an error and the same client; a known one sets exactly the pixels under its 1-cells, and pixels under 0-cells and outside the glyph keep their colour |
| Pixoo.ToByte | client.go:137 | the byte is in [0, 256) and congruent to the int modulo 256, negatives included; values already in [0, 256) are unchanged |
| Pixoo.Narrow | client.go:135-138 | the byte array has the buffer's length, and each byte is congruent to its buffer entry modulo 256 |
| Pixoo.NarrowBoundaryValues | client.go:137 | 0, 1, 255, 256 and -1 narrow to 0, 1, 255, 0 and 255 |
| Pixoo.Push | client.go:134-153 | the command is `Draw/SendHttpGif` with PicNum 1, PicWidth Size, PicOffset 0, PicSpeed 1000 and PicID equal to the old counter; PicData has length `4*ceil(n/3)` and decodes to the narrowed buffer; the buffer is unchanged and the counter is one higher |
| Pixoo.PushEncodes | client.go:135-140 | PicData is exactly the padded standard base64 of the buffer narrowed to bytes, for every buffer length |
| Pixoo.PushPreservesValid | client.go:150 | a push keeps the buffer-length and counter invariant |
| Pixoo.PushManyIds | client.go:146-150 | n pushes in a row send frame ids counter, counter+1, ..., counter+n-1, all carrying the same picture |
| Pixoo.FirstPushes | client.go:146-150 | a new client's first push has PicID 1 and its second has PicID 2 |
| Pixoo.TwoByTwoBuffer | client.go:116-121 | on a 2x2 display, setting (1, 1) to (255, 0, 0) gives the buffer `[0,0,0, 0,0,0, 0,0,0, 255,0,0]` |
| Pixoo.TwoByTwoScenario | client.go:134-153 | pushing that display sends PicWidth 2, PicID 1 and the base64 of those twelve bytes (all in [0, 256), so narrowing keeps them), which decodes back to them, and leaves the counter at 2 |
| Base64.Encode | client.go:140 | the padded standard base64 of section 4 of RFC 4648; it has no contract of its own: EncodeLength, EncodeCharacters, DecodeEncode, EncodeInjective and RfcTestVectors state its properties |
| Base64.EncodeLength | client.go:140 | the encoding of n bytes has `4*((n+2)/3)` characters |
| Base64.EncodeCharacters | client.go:140 | every output character is in the standard alphabet or is `=`, and `=` appears only in the last group |
| Base64.Decode | client.go:140 | the reference decoder of section 4 of RFC 4648, used as the encoder's partner (like a non-strict decoder, it ignores the pad bits of a final group): a successful decode yields at most three bytes per four characters |
| Base64.DecodeEncode | client.go:140 | decoding the encoding of any byte string gives back exactly that byte string |
| Base64.EncodeInjective | client.go:140 | different byte strings have different encodings |
| Base64.RfcTestVectors | client.go:140 | the encoder gives "Zg==", "Zm8=" and "Zm9v" for "f", "fo" and "foo", the test vectors of section 10 of RFC 4648 |

## Left out

- `doRequest` (client.go:30-42): JSON marshalling and the HTTP POST are network I/O. `Push` returns the command it would send. The transport's success or failure changes neither the buffer nor the counter.
- `SetBrightness`, `SetPowerStatus`, `TurnOn`, `TurnOff` and `Reset` (client.go:50-82, client.go:125-131): each builds a fixed command and passes it to the transport, with no logic of its own.
- The contents of the glyph table `chars`: the file that defines it is not part of this model. Any `Font` map can be passed in.
- `Address`: stored by `NewClient` and otherwise used only in the URL.
- Pixoo.SetPixel: requires an in-range (x, y). For other coordinates Go either panics or writes the triplet of another pixel of the buffer.
- Pixoo.DrawCharacter: requires every 1-cell of a known glyph to land on the display, for the same reason as SetPixel. A character that is not in the font needs no such condition.
- Pixoo.NewClient: takes `size` as a natural number. Go accepts a negative size without a panic, because `make`'s length `size*size*3` is never negative; such a client has a buffer that no in-range pixel addresses and a negative `PicWidth`. The doc comment of `NewClient` (client.go:12-13) names display sizes such as 16, 32 and 64, so negative sizes are outside the model.
- Go's 64-bit `int` is unbounded here. Buffer values and the counter do not wrap at 2^63. Narrowing an int64 to a byte gives the same result as narrowing an unbounded int, so the encoded frame is unaffected.
- The error message strings.
