/**
 * The plain-text codec: `readPPM` (decode) and `savePPM` (encode).
 *
 * A file is read as its sequence of whitespace-separated tokens: the format
 * tag, the width, the height, the maximum colour value and then the samples in
 * row-major order (three per pixel, red first, for P3). Saving writes the tag,
 * "width height" and the maximum value on lines of their own, then each P2
 * sample followed by a space, or each P3 pixel as "r g b" on a line of its own.
 */
module Codec {
  import opened Wrappers
  import opened ImageModel

  // ---------------------------------------------------------------------
  // Decimal numerals (the `%d` and `%hhu` conversions)

  predicate IsDigit(c: char)
  {
    '0' <= c <= '9'
  }

  predicate AllDigits(s: string)
  {
    forall i :: 0 <= i < |s| ==> IsDigit(s[i])
  }

  function DigitChar(d: nat): char
    requires d < 10
  {
    ('0' as int + d) as char
  }

  /** The value of a string of decimal digits, most significant first. */
  function DigitsValue(s: string): nat
    requires AllDigits(s)
  {
    if s == [] then 0 else DigitsValue(s[..|s| - 1]) * 10 + (s[|s| - 1] as int - '0' as int)
  }

  /** Decimal digits of n without leading zeros, as `printf("%d")` writes them. */
  function NatToString(n: nat): (s: string)
    ensures |s| > 0
  {
    if n < 10 then [DigitChar(n)] else NatToString(n / 10) + [DigitChar(n % 10)]
  }


  /** `printf("%d")` of any integer: a minus sign before the digits of a negative value. */
  function IntToString(n: int): (s: string)
  {
    if n < 0 then "-" + NatToString(-n) else NatToString(n)
  }

  /** A `%d` conversion of a whole token: an optional sign and at least one digit. */
  function ParseInt(s: string): Option<int>
  {
    if |s| > 1 && (s[0] == '-' || s[0] == '+') && AllDigits(s[1..]) then
      var v: int := DigitsValue(s[1..]);
      Some(if s[0] == '-' then -v else v)
    else if |s| > 0 && AllDigits(s) then
      Some(DigitsValue(s))
    else
      None
  }

  lemma {:induction false} DigitsOfNat(n: nat)
    ensures AllDigits(NatToString(n)) && DigitsValue(NatToString(n)) == n
  {
    var s := NatToString(n);
    if n >= 10 {
      DigitsOfNat(n / 10);
      assert s[..|s| - 1] == NatToString(n / 10);
    }
  }

  /** Reading back a printed integer gives the integer. */
  lemma ParseIntToString(n: int)
    ensures ParseInt(IntToString(n)) == Some(n)
  {
    var s := IntToString(n);
    if n < 0 {
      assert s[1..] == NatToString(-n);
      DigitsOfNat(-n);
    } else {
      DigitsOfNat(n);
    }
  }

  // ---------------------------------------------------------------------
  // Tokens

  /** The characters `isspace` accepts, which `fscanf` skips between conversions. */
  predicate IsSpace(c: char)
  {
    c == ' ' || c == '\t' || c == '\n' || c == '\r' || c as int == 11 || c as int == 12
  }

  predicate IsWord(t: string)
  {
    |t| > 0 && forall i :: 0 <= i < |t| ==> !IsSpace(t[i])
  }

  /** Length of the run of non-space characters that s starts with. */
  function WordLength(s: string): (n: nat)
    ensures n <= |s|
    ensures forall i :: 0 <= i < n ==> !IsSpace(s[i])
    ensures n < |s| ==> IsSpace(s[n])
  {
    if s == [] || IsSpace(s[0]) then 0 else 1 + WordLength(s[1..])
  }

  /** The maximal runs of non-space characters of s, in order. */
  function Tokens(s: string): (ts: seq<string>)
    ensures forall i :: 0 <= i < |ts| ==> IsWord(ts[i])
    decreases |s|
  {
    if s == [] then []
    else if IsSpace(s[0]) then Tokens(s[1..])
    else
      var n := WordLength(s);
      [s[..n]] + Tokens(s[n..])
  }

  lemma {:induction false} WordLengthAppend(a: string, b: string)
    requires WordLength(a) < |a|
    ensures WordLength(a + b) == WordLength(a)
  {
    if !IsSpace(a[0]) {
      assert (a + b)[1..] == a[1..] + b;
      WordLengthAppend(a[1..], b);
    }
  }

  /** Text that ends in whitespace splits independently of what follows it. */
  lemma {:induction false} TokensAppend(a: string, b: string)
    requires a == [] || IsSpace(a[|a| - 1])
    ensures Tokens(a + b) == Tokens(a) + Tokens(b)
    decreases |a|
  {
    if a == [] {
      assert a + b == b;
    } else if IsSpace(a[0]) {
      assert (a + b)[1..] == a[1..] + b;
      TokensAppend(a[1..], b);
    } else {
      var n := WordLength(a);
      assert n < |a|;
      WordLengthAppend(a, b);
      assert (a + b)[..n] == a[..n];
      assert (a + b)[n..] == a[n..] + b;
      TokensAppend(a[n..], b);
    }
  }

  /** A word followed by one separator is a single token. */
  lemma TokensOfWord(t: string, sep: char)
    requires IsWord(t) && IsSpace(sep)
    ensures Tokens(t + [sep]) == [t]
  {
    var s := t + [sep];
    var n := WordLength(s);
    assert n == |t| by {
      assert s[|t|] == sep;
    }
    assert s[..n] == t;
    assert s[n..] == [sep];
    assert Tokens([sep]) == Tokens([]);
  }

  // ---------------------------------------------------------------------
  // Encode (savePPM)

  /**
   * One conversion of savePPM's fprintf calls: a word (the format tag or a
   * decimal number) and the whitespace character printed right after it.
   */
  datatype Field = Field(word: string, sep: char)

  /** The characters a sequence of fields puts in the file. */
  function Render(fs: seq<Field>): string
  {
    if fs == [] then [] else Render(fs[..|fs| - 1]) + (fs[|fs| - 1].word + [fs[|fs| - 1].sep])
  }

  function Words(fs: seq<Field>): (ws: seq<string>)
    ensures |ws| == |fs|
  {
    seq(|fs|, k requires 0 <= k < |fs| => fs[k].word)
  }

  /** Every field is a non-empty word without whitespace, followed by whitespace. */
  predicate Separated(fs: seq<Field>)
  {
    forall k :: 0 <= k < |fs| ==> IsWord(fs[k].word) && IsSpace(fs[k].sep)
  }

  lemma WordsAppend(a: seq<Field>, b: seq<Field>)
    ensures Words(a + b) == Words(a) + Words(b)
  {
  }

  /** Reading back separated fields gives exactly their words, in order. */
  lemma {:induction false} RenderTokens(fs: seq<Field>)
    requires Separated(fs)
    ensures Tokens(Render(fs)) == Words(fs)
    ensures Render(fs) == [] || IsSpace(Render(fs)[|Render(fs)| - 1])
  {
    if fs != [] {
      var init, last := fs[..|fs| - 1], fs[|fs| - 1];
      RenderTokens(init);
      TokensAppend(Render(init), last.word + [last.sep]);
      TokensOfWord(last.word, last.sep);
      assert fs == init + [last];
      WordsAppend(init, [last]);
    }
  }

  function TagText(f: Format): string
  {
    match f
    case P2 => "P2"
    case P3 => "P3"
  }

  /** A decimal number contains no whitespace. */
  lemma NumberIsWord(n: int)
    requires n >= 0
    ensures IsWord(IntToString(n))
  {
    DigitsOfNat(n);
  }

  /** The three header lines: the tag, "width height" and the maximum value. */
  function HeaderFields(img: Image): seq<Field>
  {
    [Field(TagText(img.format), '\n'), Field(IntToString(img.width), ' '),
     Field(IntToString(img.height), '\n'), Field(IntToString(img.maxColour), '\n')]
  }

  /** What savePPM prints for pixel i: "g " for grayscale, "r g b" and a newline for colour. */
  function PixelFields(f: Format, d: seq<Byte>, i: nat): seq<Field>
    requires SampleCount(f, i + 1) <= |d|
  {
    match f
    case P2 => [Field(NatToString(d[i]), ' ')]
    case P3 => [Field(NatToString(d[i * 3]), ' '), Field(NatToString(d[i * 3 + 1]), ' '), Field(NatToString(d[i * 3 + 2]), '\n')]
  }

  /** What savePPM prints for the first n pixels. */
  function SampleFields(f: Format, d: seq<Byte>, n: nat): seq<Field>
    requires SampleCount(f, n) <= |d|
  {
    if n == 0 then [] else SampleFields(f, d, n - 1) + PixelFields(f, d, n - 1)
  }

  /** The fields savePPM writes for a well-formed image. */
  function EncodeFields(img: Image): seq<Field>
    requires WellFormed(img)
  {
    HeaderFields(img) + SampleFields(img.format, img.data, img.width * img.height)
  }

  /** The text savePPM writes for a well-formed image. */
  function EncodeText(img: Image): string
    requires WellFormed(img)
  {
    Render(EncodeFields(img))
  }

  /** Every sample printed in decimal, in buffer order. */
  function ShowSamples(s: seq<Byte>): (ts: seq<string>)
    ensures |ts| == |s|
  {
    seq(|s|, k requires 0 <= k < |s| => NatToString(s[k]))
  }

  lemma ShowSamplesAppend(a: seq<Byte>, b: seq<Byte>)
    ensures ShowSamples(a + b) == ShowSamples(a) + ShowSamples(b)
  {
  }

  /** The fields of pixel i are its samples in buffer order, each followed by whitespace. */
  lemma PixelWords(f: Format, d: seq<Byte>, i: nat)
    requires SampleCount(f, i + 1) <= |d|
    ensures Separated(PixelFields(f, d, i))
    ensures Words(PixelFields(f, d, i)) == ShowSamples(d[SampleCount(f, i)..SampleCount(f, i + 1)])
  {
    match f
    case P2 =>
      NumberIsWord(d[i]);
      assert d[i..i + 1] == [d[i]];
    case P3 =>
      NumberIsWord(d[i * 3]);
      NumberIsWord(d[i * 3 + 1]);
      NumberIsWord(d[i * 3 + 2]);
      assert d[i * 3..i * 3 + 3] == [d[i * 3], d[i * 3 + 1], d[i * 3 + 2]];
  }

  /** The fields of the first n pixels are their samples in buffer order, each followed by whitespace. */
  lemma {:induction false} SampleWords(f: Format, d: seq<Byte>, n: nat)
    requires SampleCount(f, n) <= |d|
    ensures Separated(SampleFields(f, d, n))
    ensures Words(SampleFields(f, d, n)) == ShowSamples(d[..SampleCount(f, n)])
  {
    if n == 0 {
      assert d[..0] == [];
    } else {
      var m := n - 1;
      SampleWords(f, d, m);
      PixelWords(f, d, m);
      WordsAppend(SampleFields(f, d, m), PixelFields(f, d, m));
      assert d[..SampleCount(f, n)] == d[..SampleCount(f, m)] + d[SampleCount(f, m)..SampleCount(f, n)];
      ShowSamplesAppend(d[..SampleCount(f, m)], d[SampleCount(f, m)..SampleCount(f, n)]);
    }
  }

  lemma SeparatedAppend(a: seq<Field>, b: seq<Field>)
    requires Separated(a) && Separated(b)
    ensures Separated(a + b)
  {
  }

  /** The header fields are the tag and the three numbers, each followed by whitespace. */
  lemma HeaderWords(img: Image)
    requires WellFormed(img)
    ensures Separated(HeaderFields(img))
    ensures Words(HeaderFields(img)) == [TagText(img.format), IntToString(img.width), IntToString(img.height), IntToString(img.maxColour)]
  {
    NumberIsWord(img.width);
    NumberIsWord(img.height);
    NumberIsWord(img.maxColour);
    assert IsWord(TagText(img.format));
  }

  /** savePPM's text splits into the tag, the three header numbers and one token per sample. */
  lemma EncodeTokens(img: Image)
    requires WellFormed(img)
    ensures Tokens(EncodeText(img)) ==
            [TagText(img.format), IntToString(img.width), IntToString(img.height), IntToString(img.maxColour)]
            + ShowSamples(img.data)
  {
    var header, samples := HeaderFields(img), SampleFields(img.format, img.data, img.width * img.height);
    HeaderWords(img);
    SampleWords(img.format, img.data, img.width * img.height);
    SeparatedAppend(header, samples);
    RenderTokens(header + samples);
    WordsAppend(header, samples);
    assert img.data[..SampleCount(img.format, img.width * img.height)] == img.data;
  }

  // ---------------------------------------------------------------------
  // Decode (readPPM)

  function FormatOfTag(t: string): Option<Format>
  {
    if t == "P2" then Some(P2) else if t == "P3" then Some(P3) else None
  }

  /** A `%hhu` conversion: the integer read, stored as an unsigned char. */
  function SampleOf(t: string): Option<Byte>
  {
    match ParseInt(t)
    case None => None
    case Some(v) => Some(ToByte(v))
  }

  /** The four header values readPPM reads before the samples. */
  datatype Header = Header(format: Format, width: int, height: int, maxColour: int)

  /**
   * The tag, then width, height and the maximum value; a tag other than P2 or
   * P3 is rejected first, then a missing, malformed or non-positive number.
   */
  function DecodeHeader(toks: seq<string>): (r: Result<Header, Error>)
    ensures r == Failure(BadTag) <==> |toks| == 0 || FormatOfTag(toks[0]).None?
    ensures r.Failure? ==> r.error == BadTag || r.error == BadHeader
    ensures r.Success? ==>
              |toks| >= 4 && FormatOfTag(toks[0]) == Some(r.value.format) &&
              ParseInt(toks[1]) == Some(r.value.width) && ParseInt(toks[2]) == Some(r.value.height) &&
              ParseInt(toks[3]) == Some(r.value.maxColour) &&
              r.value.width > 0 && r.value.height > 0 && r.value.maxColour > 0
  {
    if |toks| == 0 || FormatOfTag(toks[0]).None? then Failure(BadTag)
    else if |toks| < 4 then Failure(BadHeader)
    else
      var w, h, m := ParseInt(toks[1]), ParseInt(toks[2]), ParseInt(toks[3]);
      if w.None? || h.None? || m.None? || w.value <= 0 || h.value <= 0 || m.value <= 0 then Failure(BadHeader)
      else Success(Header(FormatOfTag(toks[0]).value, w.value, h.value, m.value))
  }

  /**
   * The image a token stream describes: the header, then width*height*channels
   * samples in stream order; any tokens after them are ignored.
   */
  function Decode(toks: seq<string>): (r: Result<Image, Error>)
    ensures r == Failure(BadTag) <==> |toks| == 0 || FormatOfTag(toks[0]).None?
    ensures r.Success? ==> WellFormed(r.value) && Some(r.value.format) == FormatOfTag(toks[0])
    ensures r.Success? ==> |toks| >= 4 + |r.value.data| &&
                           forall k :: 0 <= k < |r.value.data| ==> Some(r.value.data[k]) == SampleOf(toks[4 + k])
    ensures r.Success? ==>
              DecodeHeader(toks) == Success(Header(r.value.format, r.value.width, r.value.height, r.value.maxColour))
    ensures DecodeHeader(toks).Failure? ==> r == Failure(DecodeHeader(toks).error)
    ensures r == Failure(Truncated) <==>
              DecodeHeader(toks).Success? && |toks| - 4 < SampleCount(DecodeHeader(toks).value.format,
                                                                  DecodeHeader(toks).value.width * DecodeHeader(toks).value.height)
    ensures r == Failure(BadSample) <==>
              DecodeHeader(toks).Success? &&
              var n := SampleCount(DecodeHeader(toks).value.format, DecodeHeader(toks).value.width * DecodeHeader(toks).value.height);
              |toks| - 4 >= n && exists k :: 4 <= k < 4 + n && SampleOf(toks[k]).None?
  {
    match DecodeHeader(toks)
    case Failure(e) => Failure(e)
    case Success(hd) =>
      var n := SampleCount(hd.format, hd.width * hd.height);
      if |toks| - 4 < n then Failure(Truncated)
      else
        var samples := toks[4..4 + n];
        if exists k | 0 <= k < n :: SampleOf(samples[k]).None? then Failure(BadSample)
        else Success(Image(hd.format, hd.width, hd.height, hd.maxColour, seq(n, k requires 0 <= k < n => SampleOf(samples[k]).value)))
  }

  /** A header that parses and a full run of samples that parse is accepted, sample for sample. */
  lemma DecodeAccepts(toks: seq<string>, img: Image)
    requires WellFormed(img) && |toks| >= 4 + |img.data|
    requires FormatOfTag(toks[0]) == Some(img.format)
    requires ParseInt(toks[1]) == Some(img.width) && ParseInt(toks[2]) == Some(img.height)
    requires ParseInt(toks[3]) == Some(img.maxColour)
    requires forall k :: 0 <= k < |img.data| ==> Some(img.data[k]) == SampleOf(toks[4 + k])
    ensures Decode(toks) == Success(img)
  {
    var samples := toks[4..4 + |img.data|];
    assert forall k :: 0 <= k < |img.data| ==> SampleOf(samples[k]) == Some(img.data[k]);
    var r := Decode(toks);
    assert r.Success?;
    assert r.value.data == img.data;
  }

  /** Decoding the tokens of a well-formed image's header and samples gives back the image. */
  lemma DecodeShown(img: Image, toks: seq<string>)
    requires WellFormed(img)
    requires toks == [TagText(img.format), IntToString(img.width), IntToString(img.height), IntToString(img.maxColour)]
                     + ShowSamples(img.data)
    ensures Decode(toks) == Success(img)
  {
    ParseIntToString(img.width);
    ParseIntToString(img.height);
    ParseIntToString(img.maxColour);
    assert toks[0] == TagText(img.format);
    var n := |img.data|;
    assert toks[4..4 + n] == ShowSamples(img.data);
    forall k | 0 <= k < n
      ensures Some(img.data[k]) == SampleOf(toks[4 + k])
    {
      ParseIntToString(img.data[k]);
    }
    DecodeAccepts(toks, img);
  }

  /** Decoding what savePPM writes gives back the image: header and every sample. */
  lemma DecodeEncode(img: Image)
    requires WellFormed(img)
    ensures Decode(Tokens(EncodeText(img))) == Success(img)
  {
    EncodeTokens(img);
    DecodeShown(img, Tokens(EncodeText(img)));
  }

  // ---------------------------------------------------------------------
  // The C functions

  /** readPPM: allocate the buffer the header calls for and fill it sample by sample. */
  method ReadPPM(toks: seq<string>) returns (r: Result<PPMImage, Error>)
    ensures r.Success? <==> Decode(toks).Success?
    ensures r.Failure? ==> r.error == Decode(toks).error
    ensures r.Success? ==> fresh(r.value) && fresh(r.value.data) && r.value.Valid() && r.value.Value() == Decode(toks).value
  {
    var header := DecodeHeader(toks);
    if header.Failure? {
      return Failure(header.error);
    }
    var hd := header.value;
    var pixels := hd.width * hd.height;
    var n := SampleCount(hd.format, pixels);
    if |toks| - 4 < n {
      return Failure(Truncated);
    }
    var data := new Byte[n](_ => 0);
    var ok := ReadSamples(toks[4..4 + n], hd.format, pixels, data);
    if !ok {
      ghost var bad :| 0 <= bad < n && SampleOf(toks[4..4 + n][bad]).None?;
      assert Decode(toks) == Failure(BadSample);
      return Failure(BadSample);
    }
    var image := new PPMImage(hd.format, hd.width, hd.height, hd.maxColour, data);
    DecodeAccepts(toks, image.Value());
    return Success(image);
  }

  /**
   * readPPM's sample loop: one `%hhu` conversion per grayscale pixel, three per
   * colour pixel, stored in stream order; false when a sample does not parse.
   */
  method ReadSamples(samples: seq<string>, format: Format, pixels: nat, data: array<Byte>) returns (ok: bool)
    requires data.Length == SampleCount(format, pixels) && |samples| == data.Length
    modifies data
    ensures ok <==> forall k :: 0 <= k < data.Length ==> SampleOf(samples[k]).Some?
    ensures ok ==> forall k :: 0 <= k < data.Length ==> Some(data[k]) == SampleOf(samples[k])
  {
    var i := 0;
    while i < pixels
      invariant 0 <= i <= pixels
      invariant forall k :: 0 <= k < SampleCount(format, i) ==> Some(data[k]) == SampleOf(samples[k])
    {
      if format == P2 {
        var grey := SampleOf(samples[i]);
        if grey.None? {
          return false;
        }
        data[i] := grey.value;
      } else {
        var red, green, blue := SampleOf(samples[i * 3]), SampleOf(samples[i * 3 + 1]), SampleOf(samples[i * 3 + 2]);
        if red.None? || green.None? || blue.None? {
          return false;
        }
        data[i * 3] := red.value;
        data[i * 3 + 1] := green.value;
        data[i * 3 + 2] := blue.value;
      }
      i := i + 1;
    }
    return true;
  }

  lemma AppendAssoc<T>(a: seq<T>, b: seq<T>, c: seq<T>)
    ensures (a + b) + c == a + (b + c)
  {
  }

  /** savePPM: the header lines, then the samples in buffer order, as the fields fprintf writes. */
  method SavePPM(img: PPMImage) returns (out: seq<Field>)
    requires img.Valid()
    ensures out == EncodeFields(img.Value())
  {
    out := [Field(TagText(img.format), '\n')];
    out := out + [Field(IntToString(img.width), ' '), Field(IntToString(img.height), '\n')];
    out := out + [Field(IntToString(img.maxColour), '\n')];
    ghost var d := img.data[..];
    ghost var header := out;
    assert header == HeaderFields(img.Value());
    var pixels := img.width * img.height;
    if img.format == P2 {
      var i := 0;
      while i < pixels
        invariant 0 <= i <= pixels
        invariant out == header + SampleFields(P2, d, i)
      {
        var piece := [Field(NatToString(img.data[i]), ' ')];
        assert out + piece == header + SampleFields(P2, d, i + 1) by {
          assert piece == PixelFields(P2, d, i);
          AppendAssoc(header, SampleFields(P2, d, i), piece);
        }
        out := out + piece;
        i := i + 1;
      }
    } else {
      var i := 0;
      while i < pixels
        invariant 0 <= i <= pixels
        invariant out == header + SampleFields(P3, d, i)
      {
        var piece := [Field(NatToString(img.data[i * 3]), ' '), Field(NatToString(img.data[i * 3 + 1]), ' '),
                      Field(NatToString(img.data[i * 3 + 2]), '\n')];
        assert out + piece == header + SampleFields(P3, d, i + 1) by {
          assert piece == PixelFields(P3, d, i);
          AppendAssoc(header, SampleFields(P3, d, i), piece);
        }
        out := out + piece;
        i := i + 1;
      }
    }
  }
}
