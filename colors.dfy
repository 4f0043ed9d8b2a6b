/**
 * The colour values the collection stores: four 8-bit channels plus the
 * identity that System.Drawing's `Color` carries beside them (a colour made
 * from a packed value and the known colour of the same channels are different
 * `Color`s under `==`, yet have the same `ToArgb`).
 */
module Colors {

  newtype byte = x: int | 0 <= x < 0x100

  /** .NET's `int`: a signed 32-bit integer. */
  newtype int32 = x: int | -0x8000_0000 <= x < 0x8000_0000

  /** How a colour was made: `Color.Empty`, from channel values, or a known (named) colour. */
  datatype Identity = NoValue | FromValue | Known(id: nat)

  datatype Color = Color(a: byte, r: byte, g: byte, b: byte, identity: Identity)

  /** `Color.Empty`: all channels zero and no value set. */
  const Empty: Color := Color(0, 0, 0, 0, NoValue)

  /** The channels as one unsigned 32-bit value, A<<24 | R<<16 | G<<8 | B. */
  function Packed(c: Color): (p: nat)
    ensures p < 0x1_0000_0000
  {
    PackedBound(c);
    ((c.a as int * 0x100 + c.r as int) * 0x100 + c.g as int) * 0x100 + c.b as int
  }

  lemma PackedBound(c: Color)
    ensures ((c.a as int * 0x100 + c.r as int) * 0x100 + c.g as int) * 0x100 + c.b as int < 0x1_0000_0000
  {
    var ar := c.a as int * 0x100 + c.r as int;
    assert ar < 0x1_0000;
    var arg := ar * 0x100 + c.g as int;
    assert arg < 0x100_0000;
  }

  /** Each channel can be read back from the packed value. */
  lemma PackedChannels(c: Color)
    ensures Packed(c) % 0x100 == c.b as int
    ensures Packed(c) / 0x100 % 0x100 == c.g as int
    ensures Packed(c) / 0x1_0000 % 0x100 == c.r as int
    ensures Packed(c) / 0x100_0000 == c.a as int
  {
    var ar := c.a as int * 0x100 + c.r as int;
    var arg := ar * 0x100 + c.g as int;
    var p := arg * 0x100 + c.b as int;
    assert p == Packed(c);
    DivModByte(arg, c.b as int);
    DivModByte(ar, c.g as int);
    DivModByte(c.a as int, c.r as int);
    DivDiv(p);
    assert p / 0x100 == arg;
    assert p / 0x1_0000 == ar;
    assert p / 0x100_0000 == c.a as int;
  }

  /** `Color.ToArgb`: the packed channels read as a signed 32-bit integer. */
  function ToArgb(c: Color): (k: int32)
    ensures k as int % 0x1_0000_0000 == Packed(c)
  {
    var p := Packed(c);
    if p < 0x8000_0000 then p as int32 else (p - 0x1_0000_0000) as int32
  }

  /** `Color.FromArgb(int)`: splits a signed 32-bit value into its four channels. */
  function FromArgb(v: int32): (c: Color)
    ensures c.identity == FromValue
  {
    var u := v as int % 0x1_0000_0000;
    Color((u / 0x100_0000) as byte, (u / 0x1_0000 % 0x100) as byte,
          (u / 0x100 % 0x100) as byte, (u % 0x100) as byte, FromValue)
  }

  /** `Color.FromArgb` applied to each value, in order. */
  function FromArgbAll(values: seq<int32>): (cs: seq<Color>)
    ensures |cs| == |values|
    ensures forall i :: 0 <= i < |values| ==> cs[i] == FromArgb(values[i])
  {
    if values == [] then [] else [FromArgb(values[0])] + FromArgbAll(values[1..])
  }

  /** Two colours agree on all four channels, whatever their identity. */
  predicate SameChannels(c: Color, d: Color) {
    c.a == d.a && c.r == d.r && c.g == d.g && c.b == d.b
  }

  /** Two colours agree on red, green and blue, whatever their alpha. */
  predicate SameRgb(c: Color, d: Color) {
    c.r == d.r && c.g == d.g && c.b == d.b
  }

  /** Two colour sequences are equal element by element under `ToArgb`. */
  predicate SameArgb(s: seq<Color>, t: seq<Color>) {
    |s| == |t| && forall i :: 0 <= i < |s| ==> ToArgb(s[i]) == ToArgb(t[i])
  }

  lemma DivModByte(x: int, y: int)
    requires 0 <= y < 0x100
    ensures (x * 0x100 + y) / 0x100 == x && (x * 0x100 + y) % 0x100 == y
  {
  }

  lemma DivDiv(x: nat)
    ensures x / 0x100 / 0x100 == x / 0x1_0000
    ensures x / 0x100 / 0x100 / 0x100 == x / 0x100_0000
  {
  }

  /** Unpacking a packed colour gives back its channels. */
  lemma ArgbChannelsRoundTrip(c: Color)
    ensures SameChannels(FromArgb(ToArgb(c)), c)
    ensures FromArgb(ToArgb(c)) == c.(identity := FromValue)
  {
    PackedChannels(c);
  }

  /** Packing the channels of an unpacked value gives back that value. */
  lemma ArgbValueRoundTrip(v: int32)
    ensures ToArgb(FromArgb(v)) == v
  {
    var u := v as int % 0x1_0000_0000;
    var c := FromArgb(v);
    DivDiv(u);
    SplitByte(u);
    SplitByte(u / 0x100);
    SplitByte(u / 0x1_0000);
    assert Packed(c) == u;
    SameResidue(ToArgb(c), v);
  }

  lemma SplitByte(x: nat)
    ensures x == x / 0x100 * 0x100 + x % 0x100
  {
  }

  /** Two 32-bit values with the same residue modulo 2^32 are the same value. */
  lemma SameResidue(x: int32, y: int32)
    requires x as int % 0x1_0000_0000 == y as int % 0x1_0000_0000
    ensures x == y
  {
  }

  /** `ToArgb` identifies exactly the colours with the same four channels. */
  lemma ToArgbInjective(c: Color, d: Color)
    ensures ToArgb(c) == ToArgb(d) <==> SameChannels(c, d)
  {
    ArgbChannelsRoundTrip(c);
    ArgbChannelsRoundTrip(d);
  }
}
