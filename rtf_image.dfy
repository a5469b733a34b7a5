/**
  The RtfImage class: its private fields, the two constructors, the property
  setters, extractImage and render. Each member is specified against the
  value-level model in ImageSpec and HexPayload.
*/
module Rtf {
  import opened Wrappers
  import HexPayload
  import DecimalText
  import opened ImageSpec

  class RtfImage {
    var imgType: ImageFileType
    var imgByte: seq<byte>
    var alignment: Align
    var margins: Margins
    var width: real
    var height: real
    var keepAspectRatio: bool
    var blockHead: string
    var blockTail: string
    var startNewPage: bool
    var startNewPara: bool

    /** The current field values as one value. */
    function State(): ImageState
      reads this
    {
      ImageState(imgType, imgByte, alignment, margins, width, height, keepAspectRatio,
                 blockHead, blockTail, startNewPage, startNewPara)
    }

    /**
      The file-path constructor, with the declared image type. The bytes the
      image re-encodes to and its size in points are inputs here.
    */
    constructor FromFile(fileType: ImageFileType, payload: seq<byte>, widthPt: real, heightPt: real)
      ensures State() == FileImage(fileType, payload, widthPt, heightPt)
    {
      imgType := fileType;
      alignment := Align.None;
      margins := DefaultMargins;
      keepAspectRatio := true;
      blockHead := DefaultBlockHead;
      blockTail := DefaultBlockTail;
      startNewPage := false;
      startNewPara := false;
      width := widthPt;
      height := heightPt;
      imgByte := payload;
    }

    /** The stream constructor once its format name has been recognised. */
    constructor FromDecodedStream(fileType: ImageFileType, payload: seq<byte>, widthPt: real, heightPt: real)
      ensures State() == StreamImage(fileType, payload, widthPt, heightPt)
    {
      alignment := Align.Left;
      margins := DefaultMargins;
      keepAspectRatio := true;
      blockHead := DefaultBlockHead;
      blockTail := DefaultBlockTail;
      startNewPage := false;
      startNewPara := false;
      imgByte := payload;
      width := widthPt;
      height := heightPt;
      imgType := fileType;
    }

    /**
      The stream constructor: the stream's bytes are the payload, and the
      decoded format name picks the image type; an unknown or missing name
      throws, and then no image exists.
    */
    static method FromStream(payload: seq<byte>, formatName: Option<string>, widthPt: real, heightPt: real)
      returns (r: Result<RtfImage, Error>)
      ensures r.Failure? <==> FormatFromName(formatName).Failure?
      ensures r.Failure? ==> r.error == UnsupportedFormat(formatName)
      ensures r.Success? ==> fresh(r.value)
      ensures r.Success? ==>
        r.value.State() == StreamImage(FormatFromName(formatName).value, payload, widthPt, heightPt)
    {
      var format := FormatFromName(formatName);
      if format.Failure? {
        r := Failure(format.error);
      } else {
        var image := new RtfImage.FromDecodedStream(format.value, payload, widthPt, heightPt);
        r := Success(image);
      }
    }

    method SetAlignment(value: Align)
      modifies this
      ensures State() == old(State()).(alignment := value)
    {
      alignment := value;
    }

    /** A write through the Margins object the Margins property returns. */
    method SetMargin(side: Direction, value: real)
      modifies this
      ensures State() == old(State()).(margins := old(margins).Set(side, value))
    {
      margins := margins.Set(side, value);
    }

    method SetStartNewPage(value: bool)
      modifies this
      ensures State() == old(State()).(startNewPage := value)
    {
      startNewPage := value;
    }

    method SetStartNewPara(value: bool)
      modifies this
      ensures State() == old(State()).(startNewPara := value)
    {
      startNewPara := value;
    }

    method SetKeepAspectRatio(value: bool)
      modifies this
      ensures State() == old(State()).(keepAspectRatio := value)
    {
      keepAspectRatio := value;
    }

    method SetBlockHead(value: string)
      modifies this
      ensures State() == old(State()).(blockHead := value)
    {
      blockHead := value;
    }

    method SetBlockTail(value: string)
      modifies this
      ensures State() == old(State()).(blockTail := value)
    {
      blockTail := value;
    }

    /** The Width setter. */
    method SetWidth(value: real)
      modifies this
      ensures State() == ResizeWidth(old(State()), value)
    {
      if keepAspectRatio && width > 0.0 {
        var ratio := height / width;
        height := value * ratio;
      }
      width := value;
    }

    /** The Heigth setter. */
    method SetHeight(value: real)
      modifies this
      ensures State() == ResizeHeight(old(State()), value)
    {
      if keepAspectRatio && height > 0.0 {
        var ratio := width / height;
        width := value * ratio;
      }
      height := value;
    }

    /** extractImage: the payload in hex, two digits per byte, a break before every 60th byte. */
    method ExtractImage(nl: string) returns (s: string)
      ensures s == HexPayload.Encode(imgByte, nl)
    {
      s := [];
      for i := 0 to |imgByte|
        invariant s == HexPayload.EncodePrefix(imgByte, i, nl)
      {
        if i != 0 && i % HexPayload.BytesPerLine == 0 {
          s := s + nl;
        }
        s := s + HexPayload.ByteHex(imgByte[i]);
      }
    }

    /**
      The first part of render: the head, \\pagebb when a page break is
      asked for, a margin word for each side that is set, and the alignment
      word.
    */
    method Lead(twip: real -> int) returns (s: string)
      ensures s == LeadText(State(), twip)
    {
      s := blockHead;
      ghost var prev := s;
      if startNewPage {
        s := s + "\\pagebb";
      }
      assert s == prev + Opt(startNewPage, "\\pagebb");
      prev := s;
      if margins.top >= 0.0 {
        s := s + ("\\sb" + DecimalText.Decimal(twip(margins.top)));
      }
      assert s == prev + MarginText(margins.top, Direction.Top, twip);
      prev := s;
      if margins.bottom >= 0.0 {
        s := s + ("\\sa" + DecimalText.Decimal(twip(margins.bottom)));
      }
      assert s == prev + MarginText(margins.bottom, Direction.Bottom, twip);
      prev := s;
      if margins.left >= 0.0 {
        s := s + ("\\li" + DecimalText.Decimal(twip(margins.left)));
      }
      assert s == prev + MarginText(margins.left, Direction.Left, twip);
      prev := s;
      if margins.right >= 0.0 {
        s := s + ("\\ri" + DecimalText.Decimal(twip(margins.right)));
      }
      assert s == prev + MarginText(margins.right, Direction.Right, twip);
      prev := s;
      match alignment {
        case Left => s := s + "\\ql";
        case Right => s := s + "\\qr";
        case Center => s := s + "\\qc";
        case None =>
      }
      assert s == prev + AlignWord(alignment);
    }

    /** The display goals of render: height first, then width, each only when positive. */
    method Goals(twip: real -> int) returns (s: string)
      ensures s == GoalsText(State(), twip)
    {
      s := [];
      if height > 0.0 {
        s := s + ("\\pichgoal" + DecimalText.Decimal(twip(height)));
      }
      if width > 0.0 {
        s := s + ("\\picwgoal" + DecimalText.Decimal(twip(width)));
      }
    }

    /** render: the block's text, built by successive appends; no field changes. */
    method Render(nl: string, twip: real -> int) returns (r: Result<string, Error>)
      ensures r == RenderText(State(), nl, twip)
    {
      var result := Lead(twip);
      ghost var lead := result;
      result := result + nl;

      result := result + "{\\*\\shppict{\\pict";
      ghost var header := result;
      if imgType == Jpg {
        result := result + "\\jpegblip";
      } else if imgType == Png || imgType == Gif {
        result := result + "\\pngblip";
      } else {
        return Failure(UnsupportedImageType);
      }
      ghost var typed := result;
      assert typed == header + KindWord(KindOf(imgType).value);
      var goals := Goals(twip);
      result := result + goals;
      result := result + nl;

      var hex := ExtractImage(nl);
      result := result + hex + nl;
      result := result + "}}" + nl;
      ghost var closed := result;
      if startNewPara {
        result := result + "\\par";
      }
      ghost var ended := result;
      assert ended == closed + Opt(startNewPara, "\\par");
      result := result + blockTail + nl;
      RenderChain(lead, header, typed, closed, ended, result, nl,
                  KindWord(KindOf(imgType).value), goals, hex,
                  Opt(startNewPara, "\\par"), blockTail);
      RenderTextSpelled(State(), nl, twip);
      r := Success(result);
    }
  }

  /** The successive appends of render, read as one concatenation. */
  lemma RenderChain(lead: string, header: string, typed: string, closed: string,
                    ended: string, result: string, nl: string,
                    kind: string, goals: string, hex: string, par: string, tail: string)
    requires header == lead + nl + "{\\*\\shppict{\\pict"
    requires typed == header + kind
    requires closed == typed + goals + nl + hex + nl + "}}" + nl
    requires ended == closed + par
    requires result == ended + tail + nl
    ensures result == lead + nl + "{\\*\\shppict{\\pict" + kind + goals
                      + nl + hex + nl + "}}" + nl + par + tail + nl
  {
  }

  /** Render reads the state and changes nothing, so a second call returns the same text. */
  method RenderTwice(image: RtfImage, nl: string, twip: real -> int)
    returns (first: Result<string, Error>, second: Result<string, Error>)
    ensures first == second
    ensures first == RenderText(image.State(), nl, twip)
  {
    first := image.Render(nl, twip);
    second := image.Render(nl, twip);
  }
}
