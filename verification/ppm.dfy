/** The binary PPM ("P6") codec of read_image and write_image, over in-memory
    byte sequences: a header of ASCII tokens (tag, width, height, maximum
    colour value, with '#' comment lines after the tag) followed by the raster
    of 3-byte pixels in scanline order. */
module Ppm {
  import opened Pixels
  import opened Decimal

  datatype Option<T> = None | Some(value: T)

  /** Why a file is refused: wrong tag, malformed header, a maximum colour
      value other than 255, or fewer raster bytes than the header announces. */
  datatype Error = BadFormat | BadHeader | BadMaxValue | Truncated

  datatype Result<T> = Ok(value: T) | Err(error: Error)

  /** A decoded image: width, height and the pixels in scanline order. */
  datatype Image = Image(width: nat, height: nat, pixels: seq<Pixel>)

  /** A value read off the front of a byte sequence, and the bytes after it. */
  datatype Scanned<T> = Scanned(value: T, rest: seq<Byte>)

  /** The header fields read before the raster; rest starts right after the
      maximum colour value's last digit. */
  datatype Header = Header(width: nat, height: nat, rest: seq<Byte>)

  const Newline: Byte := 0x0A
  const Space: Byte := 0x20
  const Hash: Byte := 0x23

  /** The magic number "P6". */
  const Tag: seq<Byte> := [0x50, 0x36]

  /** RGB_COMPONENT_COLOR: the only maximum colour value accepted and written. */
  const MaxValue: nat := 255

  /** The bytes C's isspace accepts: space, \t, \n, \v, \f and \r. */
  predicate IsSpace(b: Byte)
  {
    b == 0x20 || 0x09 <= b <= 0x0D
  }

  predicate IsDigit(b: Byte)
  {
    0x30 <= b <= 0x39
  }

  predicate IsWordByte(b: Byte)
  {
    !IsSpace(b)
  }

  // ---------------------------------------------------------------------
  // Scanning, as fscanf does it

  /** What a whitespace directive of fscanf, or the leading skip of a
      conversion, consumes: every whitespace byte at the front. */
  function SkipSpace(s: seq<Byte>): seq<Byte>
  {
    if s != [] && IsSpace(s[0]) then SkipSpace(s[1..]) else s
  }

  /** SkipSpace drops a prefix made of whitespace only, and stops at a byte
      that is not whitespace or at the end. */
  lemma {:induction false} SkipSpaceSuffix(s: seq<Byte>)
    ensures |SkipSpace(s)| <= |s| && SkipSpace(s) == s[|s| - |SkipSpace(s)|..]
    ensures forall i :: 0 <= i < |s| - |SkipSpace(s)| ==> IsSpace(s[i])
    ensures SkipSpace(s) == [] || !IsSpace(SkipSpace(s)[0])
    decreases |s|
  {
    if s != [] && IsSpace(s[0]) {
      SkipSpaceSuffix(s[1..]);
    }
  }

  /** The length of the longest prefix of s whose bytes all satisfy p. */
  function Span(s: seq<Byte>, p: Byte -> bool): (n: nat)
    ensures n <= |s|
    ensures forall i :: 0 <= i < n ==> p(s[i])
    ensures n < |s| ==> !p(s[n])
  {
    if s != [] && p(s[0]) then 1 + Span(s[1..], p) else 0
  }

  /** fscanf "%s": skip whitespace, then take the longest run of
      non-whitespace bytes. */
  function ScanWord(s: seq<Byte>): (r: Scanned<seq<Byte>>)
    ensures forall i :: 0 <= i < |r.value| ==> !IsSpace(r.value[i])
    ensures r.rest == [] || IsSpace(r.rest[0])
    ensures r.value == [] ==> r.rest == []
  {
    SkipSpaceSuffix(s);
    var t := SkipSpace(s);
    var n := Span(t, IsWordByte);
    Scanned(t[..n], t[n..])
  }

  function DigitValue(b: Byte): (d: nat)
    requires IsDigit(b)
    ensures d < 10 && b == 0x30 + d
  {
    b - 0x30
  }

  /** The digit values of a run of ASCII digits. */
  function DigitValues(bs: seq<Byte>): (ds: seq<nat>)
    requires forall i :: 0 <= i < |bs| ==> IsDigit(bs[i])
    ensures |ds| == |bs|
    ensures forall i :: 0 <= i < |bs| ==> ds[i] < 10 && bs[i] == 0x30 + ds[i]
  {
    seq(|bs|, i requires 0 <= i < |bs| => DigitValue(bs[i]))
  }

  /** fscanf "%lu" (and "%d" on an unsigned numeral): skip whitespace, then
      the longest run of decimal digits, which must not be empty. */
  function ScanNat(s: seq<Byte>): (r: Option<Scanned<nat>>)
    ensures r.None? <==> SkipSpace(s) == [] || !IsDigit(SkipSpace(s)[0])
    ensures r.Some? ==> r.value.rest == [] || !IsDigit(r.value.rest[0])
  {
    var t := SkipSpace(s);
    var n := Span(t, IsDigit);
    if n == 0 then None else Some(Scanned(Value(DigitValues(t[..n])), t[n..]))
  }

  /** Everything after the first newline of s, or None when s has none. */
  function SkipLine(s: seq<Byte>): (r: Option<seq<Byte>>)
    ensures r.None? <==> Newline !in s
    ensures r.Some? ==> |r.value| < |s|
  {
    if s == [] then None
    else if s[0] == Newline then Some(s[1..])
    else
      var r := SkipLine(s[1..]);
      assert s == [s[0]] + s[1..];
      r
  }

  /** A line found by SkipLine: the bytes before its newline, the newline,
      then what SkipLine returns. */
  lemma {:induction false} SkipLineSplit(s: seq<Byte>)
    requires SkipLine(s).Some?
    ensures var t := SkipLine(s).value; var n := |s| - |t| - 1;
      s == s[..n] + [Newline] + t && Newline !in s[..n]
    decreases |s|
  {
    if s[0] != Newline {
      SkipLineSplit(s[1..]);
      var t := SkipLine(s).value;
      var n := |s| - |t| - 1;
      assert s[1..][..n - 1] == s[1..n];
      assert s[..n] == [s[0]] + s[1..n];
    }
  }

  /** The comment loop of read_image: while the next byte is '#', drop
      everything up to and including the next newline. A comment that runs
      to the end of the input is refused (None). */
  function SkipComments(s: seq<Byte>): (r: Option<seq<Byte>>)
    ensures r.Some? ==> r.value == [] || r.value[0] != Hash
    decreases |s|
  {
    if s != [] && s[0] == Hash then
      match SkipLine(s[1..])
      case None => None
      case Some(t) => SkipComments(t)
    else Some(s)
  }

  /** The same loop as read_image writes it, consuming one byte at a time
      from a cursor into s; it stops with None where the corrected reading
      refuses an unterminated comment. */
  method SkipCommentsLoop(s: seq<Byte>) returns (r: Option<seq<Byte>>)
    ensures r == SkipComments(s)
  {
    var pos := 0;
    while pos < |s| && s[pos] == Hash
      invariant pos <= |s|
      invariant SkipComments(s[pos..]) == SkipComments(s)
      decreases |s| - pos
    {
      ghost var start := pos;
      pos := pos + 1;
      while pos < |s| && s[pos] != Newline
        invariant start < pos <= |s|
        invariant SkipLine(s[pos..]) == SkipLine(s[start + 1..])
        decreases |s| - pos
      {
        assert SkipLine(s[pos..]) == SkipLine(s[pos + 1..]) by {
          assert s[pos..][1..] == s[pos + 1..];
        }
        pos := pos + 1;
      }
      if pos == |s| {
        CommentEnds(s, start, pos);
        return None;
      }
      CommentEnds(s, start, pos);
      pos := pos + 1;
    }
    r := Some(s[pos..]);
  }

  /** The comment that starts at index start of s ends at pos: at the end of
      s, where it is refused, or at a newline, after which skipping goes on. */
  lemma CommentEnds(s: seq<Byte>, start: nat, pos: nat)
    requires start < pos <= |s| && s[start] == Hash
    requires SkipLine(s[pos..]) == SkipLine(s[start + 1..])
    requires pos < |s| ==> s[pos] == Newline
    ensures pos == |s| ==> SkipComments(s[start..]) == None
    ensures pos < |s| ==> SkipComments(s[start..]) == SkipComments(s[pos + 1..])
  {
    assert s[start..][1..] == s[start + 1..];
    if pos < |s| {
      assert s[pos..][1..] == s[pos + 1..];
    }
  }

  // ---------------------------------------------------------------------
  // Decoding

  /** The header part of read_image: the tag must be "P6" ("%s\n", which also
      skips the whitespace after it), then come comment lines, then the
      fields. */
  function ReadHeader(s: seq<Byte>): (r: Result<Header>)
    ensures r.Err? ==> r.error != Truncated
  {
    var tag := ScanWord(s);
    if tag.value != Tag then Err(BadFormat)
    else
      match SkipComments(SkipSpace(tag.rest))
      case None => Err(BadHeader)
      case Some(fields) => ReadFields(fields)
  }

  /** Width and height ("%lu %lu\n"), then the maximum colour value. */
  function ReadFields(s: seq<Byte>): (r: Result<Header>)
    ensures r.Err? ==> r.error != Truncated
  {
    match ScanNat(s)
    case None => Err(BadHeader)
    case Some(width) =>
      match ScanNat(width.rest)
      case None => Err(BadHeader)
      case Some(height) => ReadMaxValue(width.value, height.value, height.rest)
  }

  /** The maximum colour value ("%d"), which must be 255. */
  function ReadMaxValue(w: nat, h: nat, s: seq<Byte>): (r: Result<Header>)
    ensures r.Err? ==> r.error != Truncated
  {
    match ScanNat(s)
    case None => Err(BadHeader)
    case Some(maxval) =>
      if maxval.value != MaxValue then Err(BadMaxValue) else Ok(Header(w, h, maxval.rest))
  }

  /** The number of raster bytes of a w by h image. */
  function PayloadSize(w: nat, h: nat): nat
  {
    3 * (w * h)
  }

  /** Pixels from their bytes, three at a time, in r, g, b order. */
  function Unpack(bs: seq<Byte>): (px: seq<Pixel>)
    requires |bs| % 3 == 0
    ensures |px| * 3 == |bs|
  {
    if bs == [] then [] else [Pixel(bs[0], bs[1], bs[2])] + Unpack(bs[3..])
  }

  /** The fread of read_image: the first w * h pixels of body, or Truncated
      when body holds fewer; bytes after the raster are ignored. */
  function ReadPayload(w: nat, h: nat, body: seq<Byte>): (r: Result<Image>)
    ensures r.Ok? ==> r.value.width == w && r.value.height == h
    ensures r.Ok? ==> |r.value.pixels| == w * h
    ensures r.Err? <==> |body| < PayloadSize(w, h)
  {
    if |body| < PayloadSize(w, h) then Err(Truncated)
    else Ok(Image(w, h, Unpack(body[..PayloadSize(w, h)])))
  }

  /** At most one whitespace byte separates the maximum colour value from
      the raster, as the Netpbm format prescribes. */
  function SkipSeparator(s: seq<Byte>): (r: seq<Byte>)
    ensures s != [] && IsSpace(s[0]) ==> r == s[1..]
    ensures s == [] || !IsSpace(s[0]) ==> r == s
  {
    if s != [] && IsSpace(s[0]) then s[1..] else s
  }

  /** read_image on the bytes of a file, with one whitespace byte after the
      maximum colour value. */
  function Decode(s: seq<Byte>): (r: Result<Image>)
    ensures r.Ok? ==> |r.value.pixels| == r.value.width * r.value.height
    ensures r.Ok? <==> (ReadHeader(s).Ok? && |SkipSeparator(ReadHeader(s).value.rest)| >=
                        PayloadSize(ReadHeader(s).value.width, ReadHeader(s).value.height))
  {
    match ReadHeader(s)
    case Err(e) => Err(e)
    case Ok(hd) => ReadPayload(hd.width, hd.height, SkipSeparator(hd.rest))
  }

  /** read_image as written as far as the "%d\n" after the maximum colour
      value goes: it skips every whitespace byte there, raster bytes
      included. The comment skip is still the terminating SkipComments; the
      comment loop as written is CommentLoopAsWritten. */
  function DecodeAsWritten(s: seq<Byte>): (r: Result<Image>)
    ensures r.Ok? ==> |r.value.pixels| == r.value.width * r.value.height
    ensures r.Ok? <==> (ReadHeader(s).Ok? && |SkipSpace(ReadHeader(s).value.rest)| >=
                        PayloadSize(ReadHeader(s).value.width, ReadHeader(s).value.height))
  {
    match ReadHeader(s)
    case Err(e) => Err(e)
    case Ok(hd) => ReadPayload(hd.width, hd.height, SkipSpace(hd.rest))
  }

  // ---------------------------------------------------------------------
  // Encoding

  /** n as ASCII decimal digits, as "%lu" and "%d" print it. */
  function Numeral(n: nat): (r: seq<Byte>)
    ensures |r| >= 1
    ensures forall i :: 0 <= i < |r| ==> IsDigit(r[i])
  {
    var ds := Digits(n);
    seq(|ds|, i requires 0 <= i < |ds| => 0x30 + ds[i])
  }

  /** The bytes of the pixels, r, g, b for each, in order. */
  function Pack(px: seq<Pixel>): (bs: seq<Byte>)
    ensures |bs| == 3 * |px|
  {
    if px == [] then [] else [px[0].r, px[0].g, px[0].b] + Pack(px[1..])
  }

  /** "P6\n". */
  const Magic: seq<Byte> := Tag + [Newline]

  /** "W H\nM\n": the size line and the maximum-colour-value line. */
  function SizeLines(w: nat, h: nat, m: nat): seq<Byte>
  {
    Numeral(w) + [Space] + Numeral(h) + [Newline] + Numeral(m) + [Newline]
  }

  /** The header block write_image prints. */
  function HeaderBytes(w: nat, h: nat): seq<Byte>
  {
    Magic + SizeLines(w, h, MaxValue)
  }

  /** write_image: the header block, then the raster. */
  function Encode(img: Image): (r: seq<Byte>)
    requires |img.pixels| == img.width * img.height
    ensures |r| == |HeaderBytes(img.width, img.height)| + PayloadSize(img.width, img.height)
    ensures r[..|Magic|] == Magic
  {
    HeaderBytes(img.width, img.height) + Pack(img.pixels)
  }

  /** A header as write_image prints it, but with comment lines after the
      tag and any maximum colour value m. */
  function CommentedHeader(lines: seq<seq<Byte>>, w: nat, h: nat, m: nat): seq<Byte>
  {
    Magic + CommentBlock(lines) + SizeLines(w, h, m)
  }

  /** Comment lines, each '#', then the text, then a newline. */
  function CommentBlock(lines: seq<seq<Byte>>): seq<Byte>
  {
    if lines == [] then [] else [Hash] + lines[0] + [Newline] + CommentBlock(lines[1..])
  }

  // ---------------------------------------------------------------------
  // Properties

  /** Unpacking the bytes of a pixel sequence gives the pixels back. */
  lemma {:induction false} UnpackPack(px: seq<Pixel>)
    ensures Unpack(Pack(px)) == px
    decreases |px|
  {
    if px != [] {
      UnpackPack(px[1..]);
      var bs := Pack(px);
      assert bs[3..] == Pack(px[1..]);
    }
  }

  /** Packing the pixels read from a raster gives the raster back. */
  lemma {:induction false} PackUnpack(bs: seq<Byte>)
    requires |bs| % 3 == 0
    ensures Pack(Unpack(bs)) == bs
    decreases |bs|
  {
    if bs != [] {
      PackUnpack(bs[3..]);
      var px := Unpack(bs);
      assert px[1..] == Unpack(bs[3..]);
      assert bs == bs[..3] + bs[3..];
    }
  }

  /** Reading back the printed digits of n gives n. */
  lemma NumeralValue(n: nat)
    ensures DigitValues(Numeral(n)) == Digits(n)
    ensures Value(DigitValues(Numeral(n))) == n
  {
    ValueOfDigits(n);
  }

  /** Whitespace in front of a non-whitespace byte is skipped entirely. */
  lemma {:induction false} SkipSpacePrefix(pre: seq<Byte>, s: seq<Byte>)
    requires forall i :: 0 <= i < |pre| ==> IsSpace(pre[i])
    requires s == [] || !IsSpace(s[0])
    ensures SkipSpace(pre + s) == s
    decreases |pre|
  {
    if pre != [] {
      assert (pre + s)[1..] == pre[1..] + s;
      SkipSpacePrefix(pre[1..], s);
    }
  }

  /** A run of bytes satisfying p, followed by one that does not (or by
      nothing), spans exactly the run. */
  lemma {:induction false} SpanPrefix(run: seq<Byte>, s: seq<Byte>, p: Byte -> bool)
    requires forall i :: 0 <= i < |run| ==> p(run[i])
    requires s == [] || !p(s[0])
    ensures Span(run + s, p) == |run|
    decreases |run|
  {
    if run != [] {
      assert (run + s)[1..] == run[1..] + s;
      SpanPrefix(run[1..], s, p);
    }
  }

  /** A numeral, after any whitespace and before a non-digit, scans as the
      number it prints. */
  lemma ScanNumeral(pre: seq<Byte>, n: nat, rest: seq<Byte>)
    requires forall i :: 0 <= i < |pre| ==> IsSpace(pre[i])
    requires rest == [] || !IsDigit(rest[0])
    ensures ScanNat(pre + (Numeral(n) + rest)) == Some(Scanned(n, rest))
  {
    var num := Numeral(n);
    SkipSpacePrefix(pre, num + rest);
    SpanPrefix(num, rest, IsDigit);
    assert (num + rest)[..|num|] == num;
    assert (num + rest)[|num|..] == rest;
    NumeralValue(n);
  }

  /** Whatever its width, height and maximum colour value, a header whose
      comment lines contain no newline reads back with those fields; the
      bytes left start with the newline after the maximum colour value. */
  lemma ReadSizeLines(lines: seq<seq<Byte>>, w: nat, h: nat, m: nat, payload: seq<Byte>)
    requires forall k :: 0 <= k < |lines| ==> Newline !in lines[k]
    ensures ReadHeader(CommentedHeader(lines, w, h, m) + payload) ==
      if m == MaxValue then Ok(Header(w, h, [Newline] + payload)) else Err(BadMaxValue)
  {
    var fields := SizeLines(w, h, m) + payload;
    assert CommentedHeader(lines, w, h, m) + payload == Magic + CommentBlock(lines) + fields;
    SizeLinesSplit(w, h, m, payload);
    ReadPreamble(lines, fields);
    ReadSizeFields(w, h, m, payload);
  }

  /** After the tag and the comment lines, the fields are read from the
      first byte that is neither whitespace nor '#'. */
  lemma ReadPreamble(lines: seq<seq<Byte>>, fields: seq<Byte>)
    requires forall k :: 0 <= k < |lines| ==> Newline !in lines[k]
    requires fields != [] && !IsSpace(fields[0]) && fields[0] != Hash
    ensures ReadHeader(Magic + CommentBlock(lines) + fields) == ReadFields(fields)
  {
    var r1 := [Newline] + (CommentBlock(lines) + fields);
    MagicSplit(CommentBlock(lines), fields);
    ScanTag(r1);
    SkipPreamble(lines, fields);
  }

  /** The bytes after the tag, regrouped. */
  lemma MagicSplit(block: seq<Byte>, fields: seq<Byte>)
    ensures Magic + block + fields == Tag + ([Newline] + (block + fields))
  {
    calc {
      Magic + block + fields;
      (Tag + [Newline]) + block + fields;
      (Tag + [Newline]) + (block + fields);
      Tag + ([Newline] + (block + fields));
    }
  }

  /** The newline after the tag and the comment lines are skipped. */
  lemma SkipPreamble(lines: seq<seq<Byte>>, fields: seq<Byte>)
    requires forall k :: 0 <= k < |lines| ==> Newline !in lines[k]
    requires fields != [] && !IsSpace(fields[0]) && fields[0] != Hash
    ensures SkipComments(SkipSpace([Newline] + (CommentBlock(lines) + fields))) == Some(fields)
  {
    SkipSpacePrefix([Newline], CommentBlock(lines) + fields);
    SkipCommentBlock(lines, fields);
  }

  /** The size lines write_image prints read back as their three numbers. */
  lemma ReadSizeFields(w: nat, h: nat, m: nat, payload: seq<Byte>)
    ensures ReadFields(SizeLines(w, h, m) + payload) ==
      if m == MaxValue then Ok(Header(w, h, [Newline] + payload)) else Err(BadMaxValue)
  {
    var nw, nh, nm := Numeral(w), Numeral(h), Numeral(m);
    var afterM := [Newline] + payload;
    var afterH := [Newline] + (nm + afterM);
    var afterW := [Space] + (nh + afterH);
    var tail := nw + afterW;
    SizeLinesSplit(w, h, m, payload);
    assert ScanNat(tail) == Some(Scanned(w, afterW)) by {
      assert tail == [] + (nw + afterW);
      ScanNumeral([], w, afterW);
    }
    assert ScanNat(afterW) == Some(Scanned(h, afterH)) by {
      ScanNumeral([Space], h, afterH);
    }
    assert ScanNat(afterH) == Some(Scanned(m, afterM)) by {
      ScanNumeral([Newline], m, afterM);
    }
  }

  /** The size lines followed by payload, regrouped field by field. */
  lemma SizeLinesSplit(w: nat, h: nat, m: nat, payload: seq<Byte>)
    ensures SizeLines(w, h, m) + payload ==
      Numeral(w) + ([Space] + (Numeral(h) + ([Newline] + (Numeral(m) + ([Newline] + payload)))))
  {
    var nw, nh, nm := Numeral(w), Numeral(h), Numeral(m);
    calc {
      SizeLines(w, h, m) + payload;
      (nw + [Space] + nh + [Newline] + nm + [Newline]) + payload;
      (nw + [Space] + nh + [Newline] + nm) + ([Newline] + payload);
      (nw + [Space] + nh + [Newline]) + (nm + ([Newline] + payload));
      (nw + [Space] + nh) + ([Newline] + (nm + ([Newline] + payload)));
      (nw + [Space]) + (nh + ([Newline] + (nm + ([Newline] + payload))));
      nw + ([Space] + (nh + ([Newline] + (nm + ([Newline] + payload)))));
    }
  }

  /** "P6" followed by whitespace scans as the tag. */
  lemma ScanTag(rest: seq<Byte>)
    requires rest != [] && IsSpace(rest[0])
    ensures ScanWord(Tag + rest) == Scanned(Tag, rest)
  {
    SkipSpacePrefix([], Tag + rest);
    assert [] + (Tag + rest) == Tag + rest;
    SpanPrefix(Tag, rest, IsWordByte);
    assert (Tag + rest)[..2] == Tag;
    assert (Tag + rest)[2..] == rest;
  }

  /** The comment loop drops any number of complete comment lines. */
  lemma {:induction false} SkipCommentBlock(lines: seq<seq<Byte>>, s: seq<Byte>)
    requires forall k :: 0 <= k < |lines| ==> Newline !in lines[k]
    ensures SkipComments(CommentBlock(lines) + s) == SkipComments(s)
    decreases |lines|
  {
    if lines != [] {
      var t := CommentBlock(lines[1..]) + s;
      var line := lines[0];
      assert CommentBlock(lines) + s == [Hash] + line + [Newline] + t;
      SkipOneComment(line, t);
      SkipCommentBlock(lines[1..], s);
    } else {
      assert CommentBlock(lines) + s == s;
    }
  }

  /** One complete comment line is dropped. */
  lemma SkipOneComment(line: seq<Byte>, t: seq<Byte>)
    requires Newline !in line
    ensures SkipComments([Hash] + line + [Newline] + t) == SkipComments(t)
  {
    var u := [Hash] + line + [Newline] + t;
    assert u[1..] == line + [Newline] + t;
    LineEnd(line, t);
  }

  /** A line without a newline, its newline, then t: SkipLine gives t. */
  lemma {:induction false} LineEnd(line: seq<Byte>, t: seq<Byte>)
    requires Newline !in line
    ensures SkipLine(line + [Newline] + t) == Some(t)
    decreases |line|
  {
    if line != [] {
      assert (line + [Newline] + t)[1..] == line[1..] + [Newline] + t;
      LineEnd(line[1..], t);
    } else {
      assert line + [Newline] + t == [Newline] + t;
    }
  }

  /** After a header written by write_image, with or without comment lines,
      read_image takes exactly w * h pixels from the raster: it fails with
      Truncated when fewer bytes follow, and ignores bytes past the raster. */
  lemma DecodePayload(lines: seq<seq<Byte>>, w: nat, h: nat, raster: seq<Byte>)
    requires forall k :: 0 <= k < |lines| ==> Newline !in lines[k]
    ensures Decode(CommentedHeader(lines, w, h, MaxValue) + raster) ==
      if |raster| < PayloadSize(w, h) then Err(Truncated)
      else Ok(Image(w, h, Unpack(raster[..PayloadSize(w, h)])))
  {
    ReadSizeLines(lines, w, h, MaxValue, raster);
    assert ([Newline] + raster)[1..] == raster;
  }

  /** The header write_image emits holds the width and height it was given. */
  lemma HeaderRoundTrip(w: nat, h: nat, raster: seq<Byte>)
    ensures ReadHeader(HeaderBytes(w, h) + raster) == Ok(Header(w, h, [Newline] + raster))
  {
    ReadSizeLines([], w, h, MaxValue, raster);
    assert CommentBlock([]) == [];
    assert HeaderBytes(w, h) == CommentedHeader([], w, h, MaxValue);
  }

  /** Decoding what write_image emits gives back the image. */
  lemma RoundTrip(img: Image)
    requires |img.pixels| == img.width * img.height
    ensures Decode(Encode(img)) == Ok(img)
  {
    var raster := Pack(img.pixels);
    HeaderRoundTrip(img.width, img.height, raster);
    assert ([Newline] + raster)[1..] == raster;
    assert raster[..PayloadSize(img.width, img.height)] == raster;
    UnpackPack(img.pixels);
  }

  /** Comment lines after the tag change nothing: the image still decodes. */
  lemma CommentsIgnored(lines: seq<seq<Byte>>, img: Image)
    requires forall k :: 0 <= k < |lines| ==> Newline !in lines[k]
    requires |img.pixels| == img.width * img.height
    ensures Decode(CommentedHeader(lines, img.width, img.height, MaxValue) + Pack(img.pixels)) == Ok(img)
  {
    var raster := Pack(img.pixels);
    DecodePayload(lines, img.width, img.height, raster);
    assert raster[..PayloadSize(img.width, img.height)] == raster;
    UnpackPack(img.pixels);
  }

  /** A maximum colour value other than 255 is refused, whatever follows. */
  lemma RejectsMaxValue(lines: seq<seq<Byte>>, w: nat, h: nat, m: nat, payload: seq<Byte>)
    requires forall k :: 0 <= k < |lines| ==> Newline !in lines[k]
    requires m != MaxValue
    ensures Decode(CommentedHeader(lines, w, h, m) + payload) == Err(BadMaxValue)
  {
    ReadSizeLines(lines, w, h, m, payload);
  }

  /** A first word other than "P6" is refused, whatever follows it. */
  lemma RejectsTag(pre: seq<Byte>, word: seq<Byte>, rest: seq<Byte>)
    requires forall i :: 0 <= i < |pre| ==> IsSpace(pre[i])
    requires forall i :: 0 <= i < |word| ==> !IsSpace(word[i])
    requires rest == [] || IsSpace(rest[0])
    requires word != [] || rest == []
    requires word != Tag
    ensures Decode(pre + word + rest) == Err(BadFormat)
  {
    assert pre + word + rest == pre + (word + rest);
    SkipSpacePrefix(pre, word + rest);
    SpanPrefix(word, rest, IsWordByte);
    assert (word + rest)[..|word|] == word;
  }

  /** Every successful decoding starts with the tag "P6", after optional
      whitespace, followed by whitespace or the end of the input. */
  lemma DecodedHasTag(s: seq<Byte>)
    requires Decode(s).Ok?
    ensures |SkipSpace(s)| >= 2 && SkipSpace(s)[..2] == Tag
    ensures |SkipSpace(s)| == 2 || IsSpace(SkipSpace(s)[2])
  {
    var t := SkipSpace(s);
    var n := Span(t, IsWordByte);
    assert t[..n] == Tag;
  }

  /** A comment that runs to the end of the input is refused. */
  lemma UnterminatedCommentRejected(pre: seq<Byte>, comment: seq<Byte>)
    requires pre != [] && forall i :: 0 <= i < |pre| ==> IsSpace(pre[i])
    requires Newline !in comment
    ensures Decode(Tag + pre + [Hash] + comment) == Err(BadHeader)
  {
    var rest := pre + ([Hash] + comment);
    assert Tag + pre + [Hash] + comment == Tag + rest;
    ScanTag(rest);
    assert SkipSpace(rest) == [Hash] + comment by {
      SkipSpacePrefix(pre, [Hash] + comment);
    }
    assert SkipComments([Hash] + comment) == None by {
      assert ([Hash] + comment)[1..] == comment;
    }
  }

  // ---------------------------------------------------------------------
  // The comment loop as written

  /** The comment loop exactly as written, one fgetc per step of fuel:
      fgetc at the end of the input returns EOF and stays there, so an
      inner loop waiting for '\n' at the end never stops. None means the
      fuel ran out; Some holds the bytes after the loop (the byte that ended
      it is pushed back by ungetc). */
  function CommentLoopAsWritten(s: seq<Byte>, inComment: bool, fuel: nat): (r: Option<seq<Byte>>)
    ensures r.Some? ==> r.value == [] || r.value[0] != Hash
    ensures r.Some? ==> |r.value| <= |s|
    decreases fuel
  {
    if fuel == 0 then None
    else if !inComment then
      if s != [] && s[0] == Hash then CommentLoopAsWritten(s[1..], true, fuel - 1)
      else Some(s)
    else if s == [] then CommentLoopAsWritten(s, true, fuel - 1)
    else if s[0] == Newline then CommentLoopAsWritten(s[1..], false, fuel - 1)
    else CommentLoopAsWritten(s[1..], true, fuel - 1)
  }

  /** Inside a comment with no newline left, the loop as written runs out of
      any amount of fuel: it never returns. */
  lemma {:induction false} UnterminatedLoopHangs(s: seq<Byte>, fuel: nat)
    requires Newline !in s
    ensures CommentLoopAsWritten(s, true, fuel) == None
    decreases fuel
  {
    if fuel > 0 && s != [] {
      UnterminatedLoopHangs(s[1..], fuel - 1);
    } else if fuel > 0 {
      UnterminatedLoopHangs(s, fuel - 1);
    }
  }

  /** With fuel for every byte, the loop as written ends when the corrected
      comment skip succeeds, and leaves the same bytes. */
  lemma {:induction false} CommentLoopFinishes(s: seq<Byte>, fuel: nat)
    requires fuel > |s|
    requires SkipComments(s).Some?
    ensures CommentLoopAsWritten(s, false, fuel) == SkipComments(s)
    decreases |s|
  {
    if s != [] && s[0] == Hash {
      var line := s[1..];
      var t := SkipLine(line).value;
      assert SkipComments(s) == SkipComments(t);
      LineLoop(line, fuel - 1);
      var rest := fuel - 1 - (|line| - |t|);
      assert CommentLoopAsWritten(s, false, fuel) == CommentLoopAsWritten(t, false, rest);
      CommentLoopFinishes(t, rest);
    }
  }

  /** When the corrected comment skip refuses the input, the loop as written
      runs out of any amount of fuel: it never ends. */
  lemma {:induction false} CommentLoopHangs(s: seq<Byte>, fuel: nat)
    requires SkipComments(s).None?
    ensures CommentLoopAsWritten(s, false, fuel) == None
    decreases |s|
  {
    assert s != [] && s[0] == Hash;
    if fuel > 0 {
      var line := s[1..];
      assert CommentLoopAsWritten(s, false, fuel) == CommentLoopAsWritten(line, true, fuel - 1);
      match SkipLine(line)
      case None =>
        UnterminatedLoopHangs(line, fuel - 1);
        assert CommentLoopAsWritten(s, false, fuel) == None;
      case Some(t) =>
        if fuel - 1 >= |line| - |t| {
          LineLoop(line, fuel - 1);
          var rest := fuel - 1 - (|line| - |t|);
          assert CommentLoopAsWritten(line, true, fuel - 1) == CommentLoopAsWritten(t, false, rest);
          assert SkipComments(t).None?;
          CommentLoopHangs(t, rest);
          assert CommentLoopAsWritten(s, false, fuel) == None;
        } else {
          ShortFuel(line, fuel - 1);
          assert CommentLoopAsWritten(s, false, fuel) == None;
        }
    } else {
      assert CommentLoopAsWritten(s, false, fuel) == None;
    }
  }

  /** Inside a comment, the loop as written reads up to the newline that
      SkipLine finds and goes back to the outer loop with the fuel left. */
  lemma {:induction false} LineLoop(s: seq<Byte>, fuel: nat)
    requires SkipLine(s).Some?
    requires fuel >= |s| - |SkipLine(s).value|
    ensures CommentLoopAsWritten(s, true, fuel) ==
      CommentLoopAsWritten(SkipLine(s).value, false, fuel - (|s| - |SkipLine(s).value|))
    decreases |s|
  {
    if s[0] != Newline {
      LineLoop(s[1..], fuel - 1);
    }
  }

  /** Inside a comment, fuel that ends before the newline runs out. */
  lemma {:induction false} ShortFuel(s: seq<Byte>, fuel: nat)
    requires SkipLine(s).Some?
    requires fuel < |s| - |SkipLine(s).value|
    ensures CommentLoopAsWritten(s, true, fuel) == None
    decreases |s|
  {
    if fuel > 0 && s[0] != Newline {
      ShortFuel(s[1..], fuel - 1);
    }
  }

  /** The smallest input that makes the loop as written hang: "P6\n#" with
      no newline after the '#'. The corrected decoder refuses it. */
  lemma HangingInput()
    ensures CommentLoopAsWritten([Hash], false, 1_000_000) == None
    ensures Decode(Magic + [Hash]) == Err(BadHeader)
  {
    UnterminatedLoopHangs([], 999_999);
    UnterminatedCommentRejected([Newline], []);
    assert Tag + [Newline] + [Hash] + [] == Magic + [Hash];
  }

  /** read_image as written refuses every image whose raster starts with a
      whitespace byte: "%d\n" swallows it with the separator, and the raster
      then comes up short. */
  lemma AsWrittenLosesLeadingSpace(img: Image)
    requires |img.pixels| == img.width * img.height
    requires |img.pixels| > 0 && IsSpace(img.pixels[0].r)
    ensures DecodeAsWritten(Encode(img)) == Err(Truncated)
    ensures Decode(Encode(img)) == Ok(img)
  {
    var raster := Pack(img.pixels);
    HeaderRoundTrip(img.width, img.height, raster);
    assert ([Newline] + raster)[1..] == raster;
    assert raster[0] == img.pixels[0].r;
    assert SkipSpace([Newline] + raster) == SkipSpace(raster[1..]) by {
      assert ([Newline] + raster)[1..] == raster;
    }
    SkipSpaceSuffix(raster[1..]);
    RoundTrip(img);
  }

  /** A one-pixel image whose red channel is a space: the smallest image
      read_image as written cannot read back. */
  lemma SpacePixelExample()
    ensures DecodeAsWritten(Encode(Image(1, 1, [Pixel(0x20, 0x41, 0x42)]))) == Err(Truncated)
    ensures Decode(Encode(Image(1, 1, [Pixel(0x20, 0x41, 0x42)]))) == Ok(Image(1, 1, [Pixel(0x20, 0x41, 0x42)]))
  {
    AsWrittenLosesLeadingSpace(Image(1, 1, [Pixel(0x20, 0x41, 0x42)]));
  }
}
