# RtfImage, modelled and verified in Dafny

This project models `RtfImage`, the image block of the RTF writer (namespace
`Elistia.DotNetRtfWriter`), and proves properties of that model. An image
block holds:

- the bytes of an image;
- its type (Jpg, Png or Gif);
- layout state: alignment, four margins, a width and a height in points
  that are coupled through an aspect-ratio lock, page- and paragraph-break
  flags, and a head and a tail string.

`render` turns this state into RTF text. The text opens with the head and
the paragraph control words. Next come the picture group, which holds the
picture-type word, the display goals and the image bytes in hex, and then
the tail.

Modules:

- `Wrappers`: `Option` and `Result`.
- `DecimalText`: the decimal text of an integer, the way `int.ToString()`
  writes it, with a parser that inverts it.
- `HexPayload`: the text that `extractImage` writes. It is specified by
  the loop's own prefix function `EncodePrefix`. Two independent reference
  definitions sit beside it: a hex decoder, and rows of 60 bytes joined by
  line breaks.
- `ImageSpec`: the value-level model of the fields (`ImageState`).
  - The states the two constructors build, and the format-name mapping of
    the stream constructor.
  - The `Width` / `Heigth` setters as functions.
  - `render` described twice:
    - as a sequence of control words (`Words`), with a scanner (`Scan`)
      that reads them back;
    - as the spelled-out text (`RenderText`).
- `Rtf`: the class `RtfImage`. Its fields are the C# private fields, and
  its methods are the constructors, the setters, `extractImage` (a `for`
  loop) and `render` (successive appends). Each method is proved against
  the functions of `ImageSpec` and `HexPayload`.

The following are parameters of the model:

- `RtfUtility.pt2Twip` is the function parameter `twip: real -> int`.
- The platform line break (`Environment.NewLine`, which `AppendLine`
  writes) is the parameter `nl`. The decoding lemmas require only that
  `nl` holds no hex digit.
- Dimensions and margins are `real`.

### Two details of the code

- `extractImage` writes a line break before every byte index that is a
  non-zero multiple of 60: one break every 60 bytes, so every 120
  characters.
- The `Width` setter rescales the height only when the current width is
  positive. The `Heigth` setter rescales the width only when the current
  height is positive.

## Model

| member | source | states |
|---|---|---|
| HexPayload.ByteHexDigits | RtfWriter/RtfImage.cs:185 | `{0:x2}` writes each byte as two lower-case hex digits whose value is the byte |
| HexPayload.EncodeRoundTrip | RtfWriter/RtfImage.cs:177-188 | with the line breaks removed, the text is exactly 2·n characters and hex-decodes to the original bytes |
| HexPayload.EncodeInjective | RtfWriter/RtfImage.cs:177-188 | two payloads with the same text are equal, so no information is lost |
| HexPayload.EncodeEmpty | RtfWriter/RtfImage.cs:177-188 | an empty payload gives an empty text |
| HexPayload.EncodeAlphabet | RtfWriter/RtfImage.cs:179-186 | every character is a lower-case hex digit or a character of the line break |
| HexPayload.EncodeLength | RtfWriter/RtfImage.cs:179-186 | a non-empty payload of n bytes gives 2·n + ((n − 1) / 60)·\|nl\| characters: (n − 1) / 60 breaks |
| HexPayload.NoBreakAtEnds | RtfWriter/RtfImage.cs:179-186 | the text starts with the digits of the first byte and ends with the digits of the last, so there is no leading or trailing break |
| HexPayload.EncodeSplit | RtfWriter/RtfImage.cs:181-185 | at a row boundary m (a multiple of 60), the text of the first m + j bytes is the text of the first m, a break when m > 0, and the text of the rest on its own |
| HexPayload.EncodePrefixOneRow | RtfWriter/RtfImage.cs:181-185 | up to 60 bytes are written with no break at all |
| HexPayload.EncodeIsRows | RtfWriter/RtfImage.cs:179-186 | the text equals the reference layout: rows of 60 bytes, one break between consecutive rows |
| HexPayload.RowsShape | RtfWriter/RtfImage.cs:179-186 | the rows partition the payload into ⌈n/60⌉ rows; every row has 60 bytes except the last, which has 1 to 60 |
| HexPayload.ThreeBytes | RtfWriter/RtfImage.cs:175-189 | the payload 01 02 03 is written "010203" |
| DecimalText.DecimalRoundTrip | RtfWriter/RtfImage.cs:218 | the decimal text appended after a control word parses back to the integer that twip gave |
| ImageSpec.FileImage | RtfWriter/RtfImage.cs:25-35 | the file constructor sets alignment None and leaves every margin unset |
| ImageSpec.StreamImage | RtfWriter/RtfImage.cs:48-56 | the stream constructor sets alignment Left and leaves every margin unset |
| ImageSpec.FormatFromName | RtfWriter/RtfImage.cs:64-71 | a recognised name gives Png, Jpg or Gif, and any refusal carries the name; which names are recognised is stated for all inputs by the four lemmas below |
| ImageSpec.UpperIsPng | RtfWriter/RtfImage.cs:64 | a name upper-cases to "PNG" exactly when it is p, n, g in any mix of letter cases |
| ImageSpec.FormatPngExactly | RtfWriter/RtfImage.cs:64-65 | for every name: Png exactly when the name is "png" in some letter case |
| ImageSpec.FormatJpgExactly | RtfWriter/RtfImage.cs:66-67 | for every name: Jpg exactly when the name is "JPEG", letter case included |
| ImageSpec.FormatGifExactly | RtfWriter/RtfImage.cs:68-69 | for every name: Gif exactly when the name is "GIF", letter case included |
| ImageSpec.FormatRefusedExactly | RtfWriter/RtfImage.cs:64-71 | the constructor throws exactly for a missing name or a name that is none of those three |
| ImageSpec.FormatPngAnyCase | RtfWriter/RtfImage.cs:64-65 | "PNG", "png" and "Png" all give Png: the test upper-cases first |
| ImageSpec.FormatJpegGifExact | RtfWriter/RtfImage.cs:66-69 | "JPEG" gives Jpg and "GIF" gives Gif, but "jpeg" and "gif" are refused: those tests are exact |
| ImageSpec.FormatOthersRefused | RtfWriter/RtfImage.cs:68-71 | "JPG", "BMP" and a missing name throw, carrying the name |
| ImageSpec.Margins.Set | RtfWriter/RtfImage.cs:88-94 | a write through the Margins object changes that side and no other |
| ImageSpec.ResizeWidthEffect | RtfWriter/RtfImage.cs:126-134 | Width always stores the value; the height changes only when the lock is on and the old width is positive, and then height·oldWidth = value·oldHeight; no other field changes |
| ImageSpec.ResizeHeightEffect | RtfWriter/RtfImage.cs:143-151 | Heigth, symmetrically: the guard is on the old height, and only the width is rescaled |
| ImageSpec.ResizeWidthKeepsRatio | RtfWriter/RtfImage.cs:128-133 | a locked resize to a non-zero width keeps height / width |
| ImageSpec.ResizeHeightKeepsRatio | RtfWriter/RtfImage.cs:145-150 | a locked resize to a non-zero height keeps width / height |
| ImageSpec.ResizeWidthTwice | RtfWriter/RtfImage.cs:126-134 | two locked width resizes through a positive width equal the last one alone |
| ImageSpec.ResizeHeightTwice | RtfWriter/RtfImage.cs:143-151 | the same for the height |
| ImageSpec.ResizeWidthThroughZero | RtfWriter/RtfImage.cs:128-133 | the ratio is the live one: after a locked resize to width 0, the height stays 0 whatever width is set next |
| ImageSpec.UnlockedResize | RtfWriter/RtfImage.cs:128-150 | with the lock off, each setter changes only its own dimension |
| ImageSpec.KindOf | RtfWriter/RtfImage.cs:247-258 | Jpg → \jpegblip, Png and Gif → \pngblip; any other type fails with "Image type not supported." |
| ImageSpec.SpellMarginWords | RtfWriter/RtfImage.cs:216-231 | a margin's word (\sb, \sa, \li, \ri with its twips) is written exactly when that margin is >= 0 |
| ImageSpec.SpellAlignWords | RtfWriter/RtfImage.cs:232-243 | Left → \ql, Right → \qr, Center → \qc, None → nothing |
| ImageSpec.SpellGoalWords | RtfWriter/RtfImage.cs:259-266 | \pichgoal / \picwgoal with its twips is written exactly when that dimension is > 0 |
| ImageSpec.RenderTextSpelled | RtfWriter/RtfImage.cs:207-274 | the full text of render: head, optional \pagebb, margins, alignment, break, picture group open, type, goals, break, hex, break, "}}", break, optional \par, tail, break |
| ImageSpec.ScanLeadWords | RtfWriter/RtfImage.cs:209-244 | the words before the first line break read back as the page flag, each margin set or not (top, bottom, left, right in order) and the alignment |
| ImageSpec.ScanPictureWords | RtfWriter/RtfImage.cs:246-267 | the picture line reads back as the type and the height goal, then the width goal, each present or not |
| ImageSpec.ScanCloseWords | RtfWriter/RtfImage.cs:269-273 | the payload, "}}", the optional \par and the tail read back as such |
| ImageSpec.RenderScan | RtfWriter/RtfImage.cs:207-274 | render fails exactly for a type outside Jpg/Png/Gif. Otherwise its words say exactly: head; \pagebb iff startNewPage; each margin word iff that margin >= 0, in order; the alignment; the blip kind; \pichgoal iff height > 0 before \picwgoal iff width > 0; the payload; \par iff startNewPara; the tail |
| ImageSpec.CentredThreeBytes | RtfWriter/RtfImage.cs:207-274 | a centred Png image of bytes 01 02 03 with a paragraph break renders with \qc, no margin or page-break word, "010203" unbroken, and \par after "}}" |
| Rtf.RtfImage.FromFile | RtfWriter/RtfImage.cs:25-35 | the fields after the file constructor are FileImage's |
| Rtf.RtfImage.FromDecodedStream | RtfWriter/RtfImage.cs:48-58 | the fields after the stream constructor are StreamImage's |
| Rtf.RtfImage.FromStream | RtfWriter/RtfImage.cs:48-73 | the stream constructor yields a fresh instance exactly when FormatFromName succeeds (the names of FormatRefusedExactly), with the type it gives, and otherwise the error that names the format |
| Rtf.RtfImage.SetAlignment | RtfWriter/RtfImage.cs:82-85 | only the alignment changes |
| Rtf.RtfImage.SetMargin | RtfWriter/RtfImage.cs:88-94 | only the given margin side changes |
| Rtf.RtfImage.SetStartNewPage | RtfWriter/RtfImage.cs:102-105 | only the page-break flag changes |
| Rtf.RtfImage.SetStartNewPara | RtfWriter/RtfImage.cs:114-117 | only the paragraph-break flag changes |
| Rtf.RtfImage.SetKeepAspectRatio | RtfWriter/RtfImage.cs:160-163 | only the aspect-ratio lock changes |
| Rtf.RtfImage.SetBlockHead | RtfWriter/RtfImage.cs:193-196 | only the head changes |
| Rtf.RtfImage.SetBlockTail | RtfWriter/RtfImage.cs:201-204 | only the tail changes |
| Rtf.RtfImage.SetWidth | RtfWriter/RtfImage.cs:126-134 | the new fields are ResizeWidth of the old ones |
| Rtf.RtfImage.SetHeight | RtfWriter/RtfImage.cs:143-151 | the new fields are ResizeHeight of the old ones |
| Rtf.RtfImage.ExtractImage | RtfWriter/RtfImage.cs:175-189 | the loop returns Encode of the payload, whose round trip, length and break placement are proved in HexPayload |
| Rtf.RtfImage.Lead | RtfWriter/RtfImage.cs:209-244 | the appends up to the first line break give LeadText of the state |
| Rtf.RtfImage.Goals | RtfWriter/RtfImage.cs:259-266 | the goal appends give GoalsText of the state |
| Rtf.RtfImage.Render | RtfWriter/RtfImage.cs:207-274 | the appends give RenderText of the state, or the throw for an unsupported type |
| Rtf.RenderTwice | RtfWriter/RtfImage.cs:207-274 | render changes no field, so two calls give the same result |

## Left out

- Image decoding and re-encoding through SixLabors.ImageSharp (`Image.Load`, `image.Save`, `MemoryStream.ToArray`) is a foreign library. The constructors take the payload bytes, their size in points, and (for the stream) the decoded format name as inputs.
- The physical-size formulas of both constructors use float and integer division on library values. The initial width and height are inputs.
- Float arithmetic: dimensions and margins are `real`. The aspect-ratio results are exact over the reals, and nothing is claimed about float rounding.
- `RtfUtility.pt2Twip` is not part of this model. It is the parameter `twip`.
- `Environment.NewLine` is the parameter `nl`.
- The `Margins` class is not part of this model. Its default is taken to be every side unset (-1), the value the render guards `>= 0` treat as absent.
- `ImageFileType` is not part of this model beyond Jpg, Png and Gif. Every other value of the enum is `Other(code)`, so the render throw is reachable from the file constructor.
- `Align` is taken to have exactly the four values None, Left, Right and Center. A C# enum value outside them would write no alignment word, as None does, and is not modelled.
- Rtf.RtfImage.SetBlockHead and Rtf.RtfImage.SetBlockTail take a `string`, which has no null. The C# setters accept null, which `new StringBuilder(null)` and `AppendLine(null)` then write as the empty text, so null is taken as "".
- ImageSpec.UpperAscii: `String.ToUpper` is modelled for ASCII letters only. It has no culture-dependent case mapping.
- The getters and `DefaultCharFormat` only return a field or null, and are read through `State()`.
- `RtfBlock` (the base class) and `RtfCharFormat` are not part of this model.
- The byte array `_imgByte` is a `seq`: nothing writes into it after construction.
- Exceptions are `Result.Failure` values: `UnsupportedFormat` for the stream constructor and `UnsupportedImageType` for render.
- Rtf.RtfImage.Render is split into two helper methods for its first and middle parts (`Lead` and `Goals`). The appends and their order are those of `render`.
