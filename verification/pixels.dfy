/** Pixels, their 8-bit channels, and the saturating clamp applied to every
    filtered channel before it is stored. */
module Pixels {

  /** An unsigned char: one colour channel, or one byte of a file. */
  type Byte = x: int | 0 <= x < 256

  /** One RGB pixel, three bytes, no alpha. */
  datatype Pixel = Pixel(r: Byte, g: Byte, b: Byte)

  datatype Channel = Red | Green | Blue

  /** The value of one channel of a pixel. */
  function Chan(p: Pixel, c: Channel): Byte
  {
    match c
    case Red => p.r
    case Green => p.g
    case Blue => p.b
  }

  const Black := Pixel(0, 0, 0)

  /** Saturating clamp into [0, 255]: never wraps around. */
  function Clamp(v: int): (r: Byte)
    ensures 0 <= v <= 255 ==> r == v
    ensures v < 0 ==> r == 0
    ensures v > 255 ==> r == 255
  {
    if v < 0 then 0 else if v > 255 then 255 else v
  }

  /** truncate_values: the three channel sums, passed by pointer in the
      source, come back clamped; each channel is handled on its own. */
  method TruncateValues(red: int, green: int, blue: int) returns (r: int, g: int, b: int)
    ensures 0 <= r <= 255 && 0 <= g <= 255 && 0 <= b <= 255
    ensures 0 <= red <= 255 ==> r == red
    ensures 0 <= green <= 255 ==> g == green
    ensures 0 <= blue <= 255 ==> b == blue
    ensures r == Clamp(red) && g == Clamp(green) && b == Clamp(blue)
  {
    r, g, b := red, green, blue;
    if r < 0 {
      r := 0;
    }
    if g < 0 {
      g := 0;
    }
    if b < 0 {
      b := 0;
    }
    if r > 255 {
      r := 255;
    }
    if g > 255 {
      g := 255;
    }
    if b > 255 {
      b := 255;
    }
  }
}
