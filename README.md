# PPM image processor: a verified model

This project models the image-processing core of `Sedman-imageProc.c`. That
program is a command-line tool that reads plain-text PPM images and writes
them back out. It blends two images, detects edges with the Sobel operator,
and finds one image inside another, marking the find with a box.

The model is written in Dafny, and its modules follow the C functions:

- `ImageModel` (`image.dfy`) is the `PPMImage` record. It has two forms:
  - an `Image` value, used by the specifications;
  - a `PPMImage` class whose `data` field is the heap buffer (an
    `array<Byte>`) that the operations write.

  The module also holds the flat-index arithmetic that every loop uses. Sample
  `c` of pixel `(x, y)` sits at `y*w + x` for grayscale (P2). For colour (P3)
  it sits at `3*(y*w + x) + c`.
- `Codec` (`codec.dfy`) models `readPPM` and `savePPM`.
  - The reader is `ReadPPM`. It takes the file's whitespace-separated tokens
    and fills a freshly allocated buffer sample by sample.
  - The writer is `SavePPM`. It produces the sequence of printed fields, and
    `Render` turns those fields into the characters of the file.
  - Both are proved against the specification functions `Decode` and
    `EncodeFields`/`EncodeText`. Decoding what the writer prints gives the
    image back.
- `Blend` (`blend.dfy`) models `addPPM`, together with the size and format
  checks the menu makes before calling it.
- `Edge` (`edge.dfy`) models `edgePPM`.
  - Interior pixels get half of the byte-truncated sum of the absolute Sobel
    responses.
  - The outer ring of the result is never written and stays zero.
- `Box` (`box.dfy`) models `drawBox`. It paints a box's one-pixel border in
  place.
- `Pattern` (`pattern.dfy`) models `patternPPM`, together with the format
  check the menu makes before calling it.
  - The search scans anchors column by column, and within a column row by row.
    It reports the first anchor at which the needle occurs.
  - On a match it returns a copy of the haystack with the border of the found
    region painted.

Each imperative method is proved against a specification function.
Lemmas about those functions state what the program promises:

- the codec round trip;
- that blending gives the same verdict and samples in either order (the maximum value comes from the first image), and that blending an image with itself returns it;
- the bounds, zero border and constant-image behaviour of edge detection;
- the first-match property of the search;
- that drawing the box changes exactly its border.

## Model

| member | source | states |
|---|---|---|
| ImageModel.ToByte | Sedman-imageProc.c:305 | Storing an int in an `unsigned char` keeps it modulo 256, and any value in 0..255 is kept unchanged. |
| ImageModel.Index | Sedman-imageProc.c:466 | The flat index of channel c of pixel (x, y): `y*w + x` for P2, `3*(y*w + x) + c` for P3. |
| ImageModel.IndexBounds | Sedman-imageProc.c:301-311 | Every in-range (column, row, channel) addresses a position inside the buffer of width*height*channels samples. |
| ImageModel.Decompose | Sedman-imageProc.c:466-481 | The column, row and channel of a flat index `(y*w + x)*channels + c` are x, y and c. |
| ImageModel.Recompose | Sedman-imageProc.c:466-481 | Every buffer position is the flat index of exactly one in-range column, row and channel. |
| ImageModel.PixelSamples | Sedman-imageProc.c:478-481 | The buffer positions belonging to pixel (x, y) are exactly the channels consecutive samples starting at its flat index, and their channel is the offset from that start. |
| ImageModel.PPMImage.Value | Sedman-imageProc.c:22-26 | A record whose buffer has the size its header calls for holds a well-formed image value. |
| Codec.NatToString | Sedman-imageProc.c:331-332 | The decimal digits of a non-negative number without leading zeros, as `%d` prints them; never empty. |
| Codec.IntToString | Sedman-imageProc.c:331-332 | `%d` printing of any integer: a minus sign before the digits of a negative value. The `%hhu` samples at 339 and 345 are printed the same way. |
| Codec.DigitsOfNat | Sedman-imageProc.c:339 | A number printed in decimal consists of digits only, and those digits read back as the number. |
| Codec.ParseIntToString | Sedman-imageProc.c:330-332 | A `%d` conversion of a printed integer reads back that integer, sign included. |
| Codec.IsSpace | Sedman-imageProc.c:279-280 | The characters fscanf skips before a conversion: space, tab, newline, carriage return, vertical tab and form feed. |
| Codec.Tokens | Sedman-imageProc.c:279-280 | The input as fscanf's conversions see it: the maximal runs of non-whitespace, with whitespace skipped. Every token is a non-empty word without whitespace. |
| Codec.TokensAppend | Sedman-imageProc.c:279-280 | Text that ends in whitespace, followed by more text, splits into the tokens of the first part and then the tokens of the second. |
| Codec.TokensOfWord | Sedman-imageProc.c:339 | A word followed by one whitespace character is a single token. |
| Codec.TagText | Sedman-imageProc.c:330 | The tag the `%s` prints: "P2" or "P3". |
| Codec.Render | Sedman-imageProc.c:330-346 | The characters the fprintf calls put in the file: each printed word followed by its separator, in order. |
| Codec.HeaderFields | Sedman-imageProc.c:330-332 | The header lines: the tag and a newline, the width and a space, the height and a newline, the maximum value and a newline. |
| Codec.PixelFields | Sedman-imageProc.c:338-346 | The fields printed for pixel i: its grayscale sample and a space, or its red and green samples each followed by a space and its blue sample followed by a newline. |
| Codec.SampleFields | Sedman-imageProc.c:334-347 | The fields printed for the first n pixels, in pixel order. |
| Codec.EncodeFields | Sedman-imageProc.c:329-347 | Everything savePPM prints: the header fields, then the fields of all width*height pixels. |
| Codec.EncodeText | Sedman-imageProc.c:329-347 | The characters savePPM writes: the rendered fields of the whole image. |
| Codec.RenderTokens | Sedman-imageProc.c:330-346 | Fields printed as a word followed by whitespace read back as exactly their words in order, and the text ends in whitespace. |
| Codec.PixelWords | Sedman-imageProc.c:335-346 | What is printed for pixel i is its samples in buffer order (one for P2; red, green, blue for P3), each followed by whitespace. |
| Codec.SampleWords | Sedman-imageProc.c:334-347 | What is printed for the first n pixels reads back as their samples in buffer order. |
| Codec.HeaderWords | Sedman-imageProc.c:330-332 | The header reads back as four tokens: the tag, the width, the height and the maximum value. |
| Codec.EncodeTokens | Sedman-imageProc.c:329-347 | The saved text reads back as the tag, the three header numbers and then one token per sample in buffer order. |
| Codec.ParseInt | Sedman-imageProc.c:279-280 | A `%d` conversion of a whole token: an optional sign followed by decimal digits. Any other token fails. |
| Codec.FormatOfTag | Sedman-imageProc.c:270-271 | The tag test: "P2" and "P3" are the two formats, and any other tag is rejected. |
| Codec.SampleOf | Sedman-imageProc.c:305 | A `%hhu` conversion: the integer read, stored modulo 256. A token that is not a number fails. |
| Codec.DecodeHeader | Sedman-imageProc.c:270-282 | A tag other than P2 or P3 is rejected with BadTag, and exactly then. Otherwise a header that is missing, malformed or not positive is rejected with BadHeader. On success the header values are the parsed tokens 1 to 3. |
| Codec.Decode | Sedman-imageProc.c:269-311 | Decoding fails with BadTag exactly when the tag is not P2 or P3, and a header error is passed on. It fails with Truncated exactly when the header parses but fewer sample tokens follow than it calls for. It fails with BadSample exactly when enough follow but one of them does not parse. A decoded image has the format, width, height and maximum value of tokens 0-3, and it is well-formed, so its buffer holds width*height samples for P2 and 3*width*height for P3. Sample k is the byte value of token 4+k, in stream order. |
| Codec.DecodeAccepts | Sedman-imageProc.c:279-311 | A stream with a valid header followed by enough parseable samples decodes to exactly the image they describe. |
| Codec.DecodeShown | Sedman-imageProc.c:279-311 | The tokens of an image's header and its samples printed in decimal decode back to the image. |
| Codec.DecodeEncode | Sedman-imageProc.c:270-346 | Decoding the text the writer produces gives back the same format, width, height, maximum value and every sample. |
| Codec.ReadPPM | Sedman-imageProc.c:252-317 | Reading succeeds exactly when Decode does and fails with the same error. On success the record is consistent and holds Decode's image. |
| Codec.ReadSamples | Sedman-imageProc.c:301-311 | The loop fills the buffer in stream order, with pixel i's samples at 3i..3i+2 for P3. It reports success exactly when every sample token parses, and then each sample is that token's byte value. |
| Codec.SavePPM | Sedman-imageProc.c:320-350 | The writer emits exactly the fields of EncodeFields: the tag line, "width height", the maximum value, then each P2 sample followed by a space, or each P3 pixel as "r g b" and a newline. |
| Blend.Average | Sedman-imageProc.c:402-407 | `(a + b) / 2` on two unsigned chars truncates: twice the result is the sum or one less. |
| Blend.Blend | Sedman-imageProc.c:154-160 | Blending fails exactly when the sizes or formats differ, with SizeMismatch checked first. Otherwise the result has the first image's header and each sample is the truncated average of the two. |
| Blend.AverageBetween | Sedman-imageProc.c:402-407 | The truncated average of two samples lies between them and does not depend on their order. |
| Blend.BlendCommutes | Sedman-imageProc.c:398-409 | Swapping the images gives the same verdict, the same error and the same samples. |
| Blend.BlendSelf | Sedman-imageProc.c:389-409 | Blending an image with itself gives back the image unchanged. |
| Blend.AddPPM | Sedman-imageProc.c:385-412 | The method agrees with Blend on success and on the error. On success it returns a fresh record holding Blend's image. |
| Blend.AverageInto | Sedman-imageProc.c:398-409 | The loop sets every sample of the new buffer to the truncated average of the corresponding samples. |
| Edge.Weight | Sedman-imageProc.c:429-430 | The entry of the horizontal (SobelX) or vertical (SobelY) kernel for window row and column offsets -1..1. |
| Edge.Interior | Sedman-imageProc.c:435-436 | The pixels the loops visit: 1 <= x <= w-2 and 1 <= y <= h-2, the ones with a full 3x3 neighbourhood. |
| Edge.EdgeValue | Sedman-imageProc.c:451 | The cast binds before the division, so an output sample never exceeds 127. A sum below 256 is simply halved. |
| Edge.RowSum | Sedman-imageProc.c:441-447 | The kernel-weighted sum of the first n samples of one window row, taken from the same channel of the neighbouring pixels. |
| Edge.WindowSum | Sedman-imageProc.c:441-447 | The kernel-weighted sum of the first m window rows. |
| Edge.Gradient | Sedman-imageProc.c:441-447 | The Sobel response of one channel at an interior pixel: the weighted sum over the full 3x3 window. |
| Edge.EdgeSample | Sedman-imageProc.c:435-451 | Result sample k is the edge value at its pixel and channel when the pixel is interior, and 0 otherwise. |
| Edge.Edge | Sedman-imageProc.c:419-423 | The result keeps the input's format, width, height and maximum value, and is well-formed. |
| Edge.EdgeAt | Sedman-imageProc.c:435-451 | An interior pixel, with 1 <= x <= w-2 and 1 <= y <= h-2, carries on each channel the edge value of its two Sobel responses. Every pixel of the outer ring is 0. |
| Edge.EdgeBounded | Sedman-imageProc.c:479-481 | No sample of the result exceeds 127. |
| Edge.RowOfConstant | Sedman-imageProc.c:441-447 | On a constant image, a window row's weighted sum is the row's kernel weights times the constant. |
| Edge.WindowOfConstant | Sedman-imageProc.c:441-447 | On a constant image, the window's weighted sum is the kernel's total weight times the constant. |
| Edge.ConstantGradient | Sedman-imageProc.c:429-430 | Both Sobel kernels respond with 0 on a constant image. |
| Edge.EdgeOfConstant | Sedman-imageProc.c:457-483 | Edge detection of a constant image gives all zeros. |
| Edge.SobelAt | Sedman-imageProc.c:441-447 | The 3x3 accumulation loops compute exactly the horizontal and vertical Sobel responses of channel c at (x, y). |
| Edge.WriteSample | Sedman-imageProc.c:478-481 | Writing one result sample stores the edge value at its flat index and changes nothing else. |
| Edge.WritePixel | Sedman-imageProc.c:450-451 | Writing a pixel sets each of its channels to the edge value and changes no other sample. |
| Edge.EdgePPM | Sedman-imageProc.c:415-487 | The method returns a fresh record holding Edge of the input: the interior holds the Sobel magnitudes and the outer ring stays zero. |
| Box.Boxed | Sedman-imageProc.c:570-614 | Boxing keeps the header and leaves a well-formed image. |
| Box.OnBox | Sedman-imageProc.c:578-587 | The pixels the loops paint: the box's top and bottom rows within its columns, and its left and right columns within its rows. |
| Box.Paint | Sedman-imageProc.c:579-595 | The border colour: max_colour stored as a byte for P2, red 255 with green and blue 0 for P3. |
| Box.BoxedAt | Sedman-imageProc.c:575-611 | A pixel on the box's top or bottom row, or on its left or right column, gets the border colour: max_colour stored as a byte for P2, (255, 0, 0) for P3. Every other sample is unchanged. |
| Box.PaintPixel | Sedman-imageProc.c:593-595 | Painting a pixel sets each of its channels to the border colour and changes no other sample. |
| Box.DrawBox | Sedman-imageProc.c:570-614 | The top and bottom rows are painted first, then the left and right columns. Afterwards the buffer is the boxed image and nothing outside the border has changed. |
| Pattern.Anchor | Sedman-imageProc.c:494-495 | The anchors the loops try: 0 <= x1 <= W1-W2 and 0 <= y1 <= H1-H2. |
| Pattern.Before | Sedman-imageProc.c:494-495 | The scan order: an anchor comes earlier when its x1 is smaller, or its x1 is equal and its y1 smaller. |
| Pattern.PixelMatches | Sedman-imageProc.c:508-529 | A needle pixel equals the offset haystack pixel on every channel: one sample for P2, three for P3. |
| Pattern.MatchesAt | Sedman-imageProc.c:502-537 | The needle occurs at an anchor: every needle pixel matches. |
| Pattern.FindFrom | Sedman-imageProc.c:494-495 | Anchors are tried with x1 from 0 to W1-W2 in the outer loop and y1 from 0 to H1-H2 in the inner one. The first match wins. |
| Pattern.Search | Sedman-imageProc.c:494-566 | The anchor patternPPM reports: the first match from (0, 0), or none. |
| Pattern.FindFromFirst | Sedman-imageProc.c:494-537 | Scanning from an anchor returns the earliest matching anchor at or after it, in x-outer, y-inner order, and none when no later anchor matches. |
| Pattern.SearchFirst | Sedman-imageProc.c:494-566 | The reported anchor is in range and matches on every pixel (all channels for P3), and no earlier anchor matches. The search fails exactly when no anchor matches. |
| Pattern.NeedleTooLarge | Sedman-imageProc.c:494-495 | A needle wider or taller than the haystack is never found. |
| Pattern.SearchFindsOccurrence | Sedman-imageProc.c:494-540 | A needle that occurs at some anchor is found, at that anchor or at an earlier one. |
| Pattern.Find | Sedman-imageProc.c:214-216 | Images of different formats are rejected with FormatMismatch, and exactly those. A found result keeps the haystack's header. |
| Pattern.FindKeepsHaystack | Sedman-imageProc.c:545-559 | In the image returned on a match, the pixels on the found region's border carry the border colour. Every other sample equals the haystack's. |
| Pattern.MatchAt | Sedman-imageProc.c:497-537 | The two inner loops, with their match flag and early breaks, report a match exactly when every needle pixel equals the offset haystack pixel. |
| Pattern.CopyImage | Sedman-imageProc.c:545-556 | The copy is a fresh record with the same header and every sample of the buffer. |
| Pattern.GrayCopyOverruns | Sedman-imageProc.c:554 | For a grayscale image, the copy bound width*height*3 exceeds the buffer by two samples per pixel. |
| Pattern.PatternPPM | Sedman-imageProc.c:490-567 | The method agrees with Find. Different formats are an error. When the search fails there is no image. Otherwise it returns a fresh record holding the haystack with the first match's border painted. |

## Left out

- The interactive menu is not modelled. That covers prompts, reading file names, clearing the input buffer, `getcwd`, and the `free` calls at 81-82. `displayPPM` is not modelled either. Both are terminal I/O.
- Opening, closing and failing to open files (`fopen`, `perror`, `exit`) is not modelled.
  - Reading starts from the file's whitespace-separated tokens.
  - Saving produces the printed fields; `Render` gives their characters.
- Allocation failures are not modelled. The buffers are allocated at the size the header calls for, instead of the undersized `malloc(sizeof(pointer))` blocks at lines 395, 417, 426, 545 and 552.
- Integer overflow of `width * height` and `3 * width * height` in C `int` is not modelled, because Dafny integers are unbounded. Likewise the `%d` header conversions at 279-280 store into a C `int`: a token outside its range is undefined behaviour in C, while the model keeps the unbounded value.
- Codec.DecodeHeader:
  - The tag token must be exactly "P2" or "P3". The C `%2s` reads at most two characters of a longer word.
  - The C does not validate width, height or max_colour. The model rejects a missing, malformed or non-positive value with BadHeader.
- Codec.ReadPPM: when a sample token does not parse, the bad character stays in the input and every later conversion fails too, so the C leaves this and every later sample unset and carries on. The same holds when the file ends early. The model reports BadSample or Truncated instead. Tokens after the last sample are ignored, as in the C.
- The `fgetc` after max_colour consumes one whitespace character. It does not change the token stream, so the model has no counterpart.
- Blend.AddPPM: the size and format checks that main makes at 154-160 are part of the operation. Main's later NULL check of the images stands for read errors, which ReadPPM reports.
- Edge.SobelAt: computes one channel per call. The C accumulates the six colour sums in one pass over the window, with the same values.
- Edge.EdgePPM: the result buffer starts zeroed. The C `malloc` leaves the untouched outer ring indeterminate.
- Box.DrawBox:
  - It uses the image's own width in place of drawBox's separate width and height parameters, which patternPPM passes with the image's values.
  - It requires a box of at least one pixel each way that lies inside the image. Its only caller always passes one; anything else writes outside the buffer in C.
- Pattern.PatternPPM: the "found at" and "not found" messages are not modelled. The format check that main makes at 214-216 is part of the operation.

## Findings

| source | as written | input that shows it | evidently intended | confidence | as-written member | corrected member |
|---|---|---|---|---|---|---|
| Sedman-imageProc.c:554 | The copy loop runs over width*height*3 samples for both formats. | Any P2 haystack, for example a 1x1 image: the loop reads samples 1 and 2 of a one-sample buffer. | Copy exactly the buffer: width*height samples for P2, 3*width*height for P3. | high; not executed | Pattern.GrayCopyOverruns | Pattern.CopyImage |
