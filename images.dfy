/**
  The image helpers of the pages: splitting an embedded `data:` URL into MIME type and bytes
  (`dataUrlToImage`), reading an `<img>` tag's pixel size (`readImgSize`), the shrink-only
  width cap (`fitToMaxWidth`) with the export fallback size, and the MIME to image-type mapping.
 */
module Images {
  import opened Common
  import opened Strings
  import opened Base64
  import opened Dom
  import opened Records

  const DataScheme: string := "data:"
  const DefaultMime: string := "image/png"

  /** The export's width cap and the size it substitutes when the tag gave none. */
  const MaxExportWidth: int := 520
  const FallbackWidth: int := 420
  const FallbackHeight: int := 260

  /** What `dataUrlToImage` returns when it does not return null. */
  datatype Embedded = Embedded(contentType: string, data: seq<byte>)

  /** The position of the first `c` in `s`, or `|s|` when there is none. */
  function IndexOf(s: string, c: char): (i: nat)
    ensures i <= |s| && c !in s[..i]
    ensures i < |s| ==> s[i] == c
  {
    if s == [] then 0
    else if s[0] == c then 0
    else
      var j := IndexOf(s[1..], c);
      assert s[..1 + j] == [s[0]] + s[1..][..j];
      1 + j
  }

  /** The first occurrence is where the prefix before it has none. */
  lemma {:induction false} IndexOfIs(s: string, c: char, i: nat)
    requires i <= |s| && c !in s[..i] && (i < |s| ==> s[i] == c)
    ensures IndexOf(s, c) == i
  {
    if s != [] && s[0] != c {
      assert s[1..][..i - 1] == s[..i][1..];
      IndexOfIs(s[1..], c, i - 1);
    }
  }

  /** The first piece of `url.split(",")`. */
  function DataUrlMeta(url: string): string {
    url[..IndexOf(url, ',')]
  }

  /** The second piece of `url.split(",")`, `None` when there is no comma (the piece is `undefined`). */
  function DataUrlPayload(url: string): Option<string> {
    var i := IndexOf(url, ',');
    if i == |url| then None
    else
      var rest := url[i + 1..];
      Some(rest[..IndexOf(rest, ',')])
  }

  /** The characters `.` does not match in a regular expression. */
  predicate IsLineTerminator(c: char) {
    c == '\n' || c == '\r' || c as int == 0x2028 || c as int == 0x2029
  }

  /** `meta.match(/^data:(.*);base64$/)?.[1] ?? "image/png"`. */
  function MimeOf(meta: string): string {
    if |meta| >= 12 && StartsWith(meta, DataScheme) && meta[|meta| - 7..] == ";base64"
       && (forall k | 5 <= k < |meta| - 7 :: !IsLineTerminator(meta[k]))
    then meta[5..|meta| - 7]
    else DefaultMime
  }

  /** `binary.charCodeAt(i)` for every position of a binary string. */
  function CharCodes(binary: string): (r: seq<byte>)
    requires forall k | 0 <= k < |binary| :: binary[k] as int < 256
    ensures |r| == |binary|
  {
    seq(|binary|, k requires 0 <= k < |binary| => binary[k] as int)
  }

  /**
    What `dataUrlToImage(url)` evaluates to: `Ok(None)` is its `null`, `Err` the exception
    `atob` throws out of it.
   */
  function DataUrlImage(url: string): Result<Option<Embedded>, ParseError> {
    if !StartsWith(url, DataScheme) then Ok(None)
    else
      var payload := DataUrlPayload(url);
      if payload.None? || payload.value == "" then Ok(None)
      else
        match Atob(payload.value)
        case None => Err(InvalidCharacterError)
        case Some(binary) => Ok(Some(Embedded(MimeOf(DataUrlMeta(url)), CharCodes(binary))))
  }

  /** The conversion a `Uint8Array` element assignment applies: the value modulo 256. */
  function ToUint8(x: int): byte {
    x % 256
  }

  /** `dataUrlToImage`: checks the scheme, splits on commas, decodes the payload and copies it byte by byte. */
  method DataUrlToImage(url: string) returns (r: Result<Option<Embedded>, ParseError>)
    ensures r == DataUrlImage(url)
    ensures !StartsWith(url, DataScheme) ==> r == Ok(None)
  {
    if !StartsWith(url, DataScheme) {
      return Ok(None);
    }
    var meta, payload := DataUrlMeta(url), DataUrlPayload(url);
    if payload.None? || payload.value == "" {
      return Ok(None);
    }
    var contentType := MimeOf(meta);
    var decoded := Atob(payload.value);
    if decoded.None? {
      return Err(InvalidCharacterError);
    }
    var binary := decoded.value;
    var bytes := CopyCharCodes(binary);
    assert bytes == CharCodes(binary);
    assert DataUrlImage(url) == Ok(Some(Embedded(contentType, CharCodes(binary))));
    return Ok(Some(Embedded(contentType, bytes)));
  }

  /** The copy loop of `dataUrlToImage`: a `Uint8Array` of the binary string's length, filled with its char codes. */
  method CopyCharCodes(binary: string) returns (data: seq<byte>)
    requires forall k | 0 <= k < |binary| :: binary[k] as int < 256
    ensures |data| == |binary|
    ensures forall k | 0 <= k < |binary| :: data[k] == binary[k] as int
  {
    var len := |binary|;
    var bytes := new byte[len];
    for i := 0 to len
      invariant forall k | 0 <= k < i :: bytes[k] == binary[k] as int
    {
      bytes[i] := ToUint8(binary[i] as int);
    }
    data := bytes[..];
  }

  /** The copied bytes are exactly the bytes the payload encodes. */
  lemma CharCodesOfAtob(payload: string)
    requires Atob(payload).Some?
    ensures CharCodes(Atob(payload).value) == ForgivingDecode(payload).value
  {
  }

  /** The capture of `^data:(.*);base64$` is the declared type whenever it has no line break. */
  lemma MimeOfDeclared(mime: string)
    requires forall k | 0 <= k < |mime| :: !IsLineTerminator(mime[k])
    ensures MimeOf(DataScheme + mime + ";base64") == mime
  {
    var meta := DataScheme + mime + ";base64";
    assert meta[|meta| - 7..] == ";base64";
    assert meta[5..|meta| - 7] == mime;
    forall k | 5 <= k < |meta| - 7 ensures !IsLineTerminator(meta[k]) {
      assert meta[k] == mime[k - 5];
    }
  }

  /**
    Round trip: a data URL built from a MIME type without commas or line breaks and the base64
    encoding of a non-empty byte string yields exactly that type and those bytes.
   */
  lemma DataUrlRoundTrip(mime: string, bytes: seq<byte>)
    requires ',' !in mime
    requires forall k | 0 <= k < |mime| :: !IsLineTerminator(mime[k])
    requires |bytes| > 0
    ensures DataUrlImage(DataScheme + mime + ";base64," + Encode(bytes)) == Ok(Some(Embedded(mime, bytes)))
  {
    var meta := DataScheme + mime + ";base64";
    var enc := Encode(bytes);
    var url := meta + "," + enc;
    assert DataScheme + mime + ";base64," + enc == url;
    assert ',' !in meta by {
      forall k | 0 <= k < |meta| ensures meta[k] != ',' {
        if 5 <= k < 5 + |mime| { assert meta[k] == mime[k - 5]; }
      }
    }
    assert url[..|meta|] == meta;
    IndexOfIs(url, ',', |meta|);
    assert DataUrlMeta(url) == meta;
    assert url[|meta| + 1..] == enc;
    assert ',' !in enc by {
      EncodingHasNoComma(bytes);
    }
    IndexOfIs(enc, ',', |enc|);
    assert enc[..|enc|] == enc;
    assert DataUrlPayload(url) == Some(enc);
    assert StartsWith(url, DataScheme) by {
      assert url[..5] == meta[..5];
    }
    assert |EncodeUnpadded(bytes)| > 0;
    DecodeEncode(bytes);
    CharCodesOfAtob(enc);
    MimeOfDeclared(mime);
  }

  /** A data URL without a comma, or with nothing between its first comma and the next, gives `null`. */
  lemma {:induction false} MissingPayloadIsNull(url: string)
    requires StartsWith(url, DataScheme)
    requires ',' !in url || DataUrlPayload(url) == Some("")
    ensures DataUrlImage(url) == Ok(None)
  {
    if ',' !in url {
      assert IndexOf(url, ',') == |url|;
    }
  }

  /**
    Any type other than the default comes from metadata of the exact form `data:<type>;base64`,
    with no line break in `<type>`; with `MimeOfDeclared` this is both directions.
   */
  lemma MimeOfFallback(meta: string)
    ensures MimeOf(meta) != DefaultMime ==>
      meta == DataScheme + MimeOf(meta) + ";base64"
      && forall k | 0 <= k < |MimeOf(meta)| :: !IsLineTerminator(MimeOf(meta)[k])
  {
    if MimeOf(meta) != DefaultMime {
      var mime := MimeOf(meta);
      assert meta[..5] == DataScheme;
      assert meta == meta[..5] + meta[5..|meta| - 7] + meta[|meta| - 7..];
      forall k | 0 <= k < |mime| ensures !IsLineTerminator(mime[k]) {
        assert mime[k] == meta[k + 5];
      }
    }
  }

  /** A non-empty payload that is not forgiving-base64 makes `atob`, and so the conversion, throw. */
  lemma InvalidPayloadThrows(url: string, payload: string)
    requires StartsWith(url, DataScheme)
    requires DataUrlPayload(url) == Some(payload) && payload != ""
    requires ForgivingDecode(payload).None?
    ensures DataUrlImage(url) == Err(InvalidCharacterError)
  {
    assert Atob(payload).None?;
  }

  lemma EncodingHasNoComma(bytes: seq<byte>)
    ensures ',' !in Encode(bytes)
  {
    var u := EncodeUnpadded(bytes);
    var e := Encode(bytes);
    forall k | 0 <= k < |e| ensures e[k] != ',' {
      if k < |u| { assert e[k] == u[k] && IsAlphabetChar(u[k]); }
    }
  }

  /**
    `s.match(/<key>\s*:\s*(\d+)\s*px/i)` tried at the start of `s`: the captured digits when the
    pattern matches there. The greedy runs never need to backtrack: a shorter whitespace run
    leaves whitespace where `:`, a digit or `p` is needed, and a shorter digit run leaves a digit.
   */
  function PxMatchAt(s: string, key: string): (r: Option<string>)
    ensures r.Some? ==> |r.value| > 0 && AllDigits(r.value)
  {
    if StartsWithCI(s, key) then PxValue(s[|key|..]) else None
  }

  /** The rest of the pattern after the key, `\s*:\s*(\d+)\s*px`, at the start of `a`. */
  function PxValue(a: string): (r: Option<string>)
    ensures r.Some? ==> |r.value| > 0 && AllDigits(r.value)
  {
    var b := a[LeadingSpaces(a)..];
    if b == [] || b[0] != ':' then None
    else
      var c := b[1..][LeadingSpaces(b[1..])..];
      var n := DigitRun(c);
      var d := c[n..];
      if n > 0 && StartsWithCI(d[LeadingSpaces(d)..], "px") then Some(c[..n]) else None
  }

  /** `style.match(...)`: the leftmost position where the pattern matches decides. */
  function StylePx(style: string, key: string): (r: Option<string>)
    ensures r.Some? ==> |r.value| > 0 && AllDigits(r.value)
    decreases |style|
  {
    if style == [] then None
    else if PxMatchAt(style, key).Some? then PxMatchAt(style, key)
    else StylePx(style[1..], key)
  }

  /** `Number(match[1])` for the style's pixel value of `key` (`width` or `height`), if it has one. */
  function StyleNumber(img: Node, key: string): (r: Option<int>)
    ensures r.Some? ==> r.value >= 0
  {
    var style := GetAttribute(img, "style");
    var px := StylePx(if style.Some? then style.value else "", key);
    if px.Some? then Some(DigitsValue(px.value)) else None
  }

  /**
    `attr ? Number(attr) : undefined`, kept only when `Number.isFinite(v) && v`: an attribute that
    is present, not empty, an integer and not zero.
   */
  function AttrNumber(img: Node, name: string): (r: Option<int>)
    ensures r.Some? ==> r.value != 0
  {
    var a := GetAttribute(img, name);
    if a.None? || a.value == "" then None
    else
      var v := JsNumber(a.value);
      if v.Some? && v.value != 0 then v else None
  }

  /** One dimension of `readImgSize`: the attribute when it is usable, else the style's pixel value. */
  function ReadDimension(img: Node, key: string): (r: Option<int>)
    ensures AttrNumber(img, key).Some? ==> r == AttrNumber(img, key)
    ensures AttrNumber(img, key).None? ==> r == StyleNumber(img, key)
  {
    var w1 := AttrNumber(img, key);
    if w1.Some? then w1 else StyleNumber(img, key)
  }

  /** `readImgSize(img)`: the `{ width, height }` pair an `<img>` tag declares. */
  function ReadImgSize(img: Node): (r: (Option<int>, Option<int>)) {
    (ReadDimension(img, "width"), ReadDimension(img, "height"))
  }

  /** The pattern matches `key:<digits>px` at its start, whatever case the key is written in. */
  lemma PxMatchOfDeclaration(key: string, n: nat, rest: string)
    ensures PxMatchAt(key + ":" + NatToDecimal(n) + "px" + rest, key) == Some(NatToDecimal(n))
  {
    var digits := NatToDecimal(n);
    var s := key + ":" + digits + "px" + rest;
    assert StartsWithCI(s, key) by {
      forall k | 0 <= k < |key| ensures ToLowerChar(s[k]) == ToLowerChar(key[k]) {
        assert s[k] == key[k];
      }
    }
    assert s[|key|..] == ":" + digits + "px" + rest;
    PxValueOf(digits, rest);
  }

  lemma PxValueOf(digits: string, rest: string)
    requires |digits| > 0 && AllDigits(digits)
    ensures PxValue(":" + digits + "px" + rest) == Some(digits)
  {
    var a := ":" + digits + "px" + rest;
    assert LeadingSpaces(a) == 0;
    assert a[1..] == digits + ("px" + rest);
    assert !IsSpace(a[1]);
    DigitRunOf(digits, "px" + rest);
    var d := a[1..][|digits|..];
    assert d == "px" + rest;
    assert LeadingSpaces(d) == 0;
    assert a[1..][..|digits|] == digits;
  }

  /** A digit run stops exactly where a non-digit follows it. */
  lemma {:induction false} DigitRunOf(d: string, rest: string)
    requires AllDigits(d)
    requires rest != [] && !IsDigit(rest[0])
    ensures DigitRun(d + rest) == |d|
  {
    if d != [] {
      assert (d + rest)[1..] == d[1..] + rest;
      DigitRunOf(d[1..], rest);
    }
  }

  /**
    `readImgSize` reads an inline `style="width:<n>px"` when the tag has no usable `width`
    attribute: the style's number is the width.
   */
  lemma StyleWidthRead(n: nat, attrs: map<string, string>, children: seq<Node>)
    requires "width" !in attrs
    requires "style" in attrs && attrs["style"] == "width:" + NatToDecimal(n) + "px"
    ensures ReadImgSize(Element("IMG", attrs, children)).0 == Some(n)
  {
    var img := Element("IMG", attrs, children);
    var style := attrs["style"];
    assert style == "width" + ":" + NatToDecimal(n) + "px" + "";
    PxMatchOfDeclaration("width", n, "");
    DigitsValueOfDecimal(n);
  }

  /** A usable `width` attribute wins over whatever the style says. */
  lemma WidthAttributeWins(n: nat, attrs: map<string, string>, children: seq<Node>)
    requires n > 0
    requires "width" in attrs && attrs["width"] == NatToDecimal(n)
    ensures ReadImgSize(Element("IMG", attrs, children)).0 == Some(n)
  {
    JsNumberOfDecimal(n);
  }

  /** A pixel size: what `fitToMaxWidth` takes and returns. */
  datatype Dimensions = Dimensions(width: int, height: int)

  /** `Math.round(n / d)` for a positive `d`: the nearest integer, halves rounded up. */
  function RoundDiv(n: int, d: int): (r: int)
    requires d > 0
    ensures 2 * d * r <= 2 * n + d < 2 * d * r + 2 * d
  {
    (2 * n + d) / (2 * d)
  }

  /**
    `fitToMaxWidth(size, maxWidth)`: a size no wider than `maxWidth` is returned as it is; a wider
    one is scaled by `maxWidth / width`, which makes the width exactly `maxWidth` and the height the
    rounded proportional height.
   */
  function FitToMaxWidth(size: Dimensions, maxWidth: int): (r: Dimensions)
    requires maxWidth > 0
    ensures size.width <= maxWidth ==> r == size
    ensures size.width > maxWidth ==> r.width == maxWidth
    ensures size.width > maxWidth ==>
      2 * size.width * r.height <= 2 * size.height * maxWidth + size.width < 2 * size.width * r.height + 2 * size.width
  {
    if size.width <= maxWidth then size
    else Dimensions(maxWidth, RoundDiv(size.height * maxWidth, size.width))
  }

  /**
    `fitToMaxWidth` only ever shrinks a real size: the result is no wider than the cap or the
    input, the height does not grow, and the aspect ratio is kept up to the rounding
    of the height (within half a pixel).
   */
  lemma FitNeverEnlarges(size: Dimensions, maxWidth: int)
    requires maxWidth > 0 && size.width > 0 && size.height >= 0
    ensures FitToMaxWidth(size, maxWidth).width <= size.width
    ensures FitToMaxWidth(size, maxWidth).width <= maxWidth
    ensures 0 <= FitToMaxWidth(size, maxWidth).height <= size.height
    ensures var r := FitToMaxWidth(size, maxWidth);
      -size.width <= 2 * (r.height * size.width - size.height * r.width) <= size.width
  {
    var r := FitToMaxWidth(size, maxWidth);
    if size.width > maxWidth {
      var w, h, m := size.width, size.height, maxWidth;
      ScaledHeightBounds(w, h, m, r.height);
      assert 2 * w * r.height <= 2 * h * m + w < 2 * w * r.height + 2 * w;
      assert r.height * w == w * r.height && h * r.width == h * m;
    }
  }

  /** A height scaled by `m / w < 1` and rounded lies between 0 and the original height. */
  lemma ScaledHeightBounds(w: int, h: int, m: int, r: int)
    requires 0 < m < w && h >= 0
    requires 2 * w * r <= 2 * h * m + w < 2 * w * r + 2 * w
    ensures 0 <= r <= h
  {
    var hm, hw := h * m, h * w;
    assert hm <= hw by {
      MulMonotone(h, m, w);
    }
    assert hm >= 0 by {
      MulMonotone(h, 0, m);
    }
    assert (2 * w) * (h + 1) == 2 * hw + 2 * w;
    assert (2 * w) * (r + 1) == 2 * w * r + 2 * w;
    MulCancel(2 * w, r, h + 1);
    MulCancel(2 * w, 0, r + 1);
  }

  lemma MulCancel(a: int, x: int, y: int)
    requires a > 0 && a * x < a * y
    ensures x < y
  {
    if x >= y {
      MulMonotone(a, y, x);
      assert false;
    }
  }

  lemma MulMonotone(a: int, x: int, y: int)
    requires a >= 0 && x <= y
    ensures a * x <= a * y
  {
    assert a * y - a * x == a * (y - x);
  }

  /**
    The size an exported image gets: the declared width and height where they are positive, else
    420 and 260, then capped at a width of 520.
   */
  function ExportSize(img: QuestionImage): (r: Dimensions)
    ensures 0 < r.width <= MaxExportWidth
  {
    var w := if img.width.Some? && img.width.value > 0 then img.width.value else FallbackWidth;
    var h := if img.height.Some? && img.height.value > 0 then img.height.value else FallbackHeight;
    FitToMaxWidth(Dimensions(w, h), MaxExportWidth)
  }

  /** An image without a usable size is exported at the fallback 420 x 260, which the cap leaves alone. */
  lemma ExportFallback(img: QuestionImage)
    requires img.width.None? || img.width.value <= 0
    requires img.height.None? || img.height.value <= 0
    ensures ExportSize(img) == Dimensions(FallbackWidth, FallbackHeight)
  {
  }

  /** A declared size is exported as it is when it fits, and shrunk to a width of 520 when it does not. */
  lemma ExportDeclared(img: QuestionImage, w: int, h: int)
    requires img.width == Some(w) && img.height == Some(h) && w > 0 && h > 0
    ensures w <= MaxExportWidth ==> ExportSize(img) == Dimensions(w, h)
    ensures w > MaxExportWidth ==> (ExportSize(img).width == MaxExportWidth && 0 <= ExportSize(img).height <= h)
  {
    FitNeverEnlarges(Dimensions(w, h), MaxExportWidth);
  }

  /** The image kinds the document writer accepts. */
  datatype ImgType = Png | Jpg | Gif | Bmp

  /**
    The older page's inline if-chain on the content type: case-sensitive substring tests in the
    order png, jpeg or jpg, gif, bmp, with png as the fallback.
   */
  function ImgTypeOfContentType(contentType: string): (r: ImgType)
    ensures Contains(contentType, "png") ==> r == Png
    ensures r == Jpg <==>
      !Contains(contentType, "png") && (Contains(contentType, "jpeg") || Contains(contentType, "jpg"))
    ensures r == Gif <==>
      !Contains(contentType, "png") && !Contains(contentType, "jpeg") && !Contains(contentType, "jpg")
      && Contains(contentType, "gif")
    ensures r == Bmp <==>
      !Contains(contentType, "png") && !Contains(contentType, "jpeg") && !Contains(contentType, "jpg")
      && !Contains(contentType, "gif") && Contains(contentType, "bmp")
  {
    if Contains(contentType, "png") then Png
    else if Contains(contentType, "jpeg") || Contains(contentType, "jpg") then Jpg
    else if Contains(contentType, "gif") then Gif
    else if Contains(contentType, "bmp") then Bmp
    else Png
  }

  /** `imgTypeFromMime(mime)`: the same chain applied to the lower-cased type. */
  function ImgTypeFromMime(mime: string): (r: ImgType) {
    ImgTypeOfContentType(ToLowerAscii(mime))
  }

  /** `imgTypeFromMime` ignores the case of ASCII letters. */
  lemma ImgTypeIgnoresCase(mime: string)
    ensures ImgTypeFromMime(mime) == ImgTypeFromMime(ToLowerAscii(mime))
  {
    LowerIdempotent(mime);
  }

  /** On a content type without upper-case letters the two pages choose the same image type. */
  lemma ImgTypeMappingsAgree(contentType: string)
    requires HasNoUpperAscii(contentType)
    ensures ImgTypeFromMime(contentType) == ImgTypeOfContentType(contentType)
  {
    assert ToLowerAscii(contentType) == contentType;
  }

  /**
    The older page's chain is case-sensitive: a content type written without lower-case ASCII
    letters (`IMAGE/JPEG`, say) contains none of the keywords and falls back to png there.
   */
  lemma LegacyMappingIsCaseSensitive(contentType: string)
    requires forall k | 0 <= k < |contentType| :: !('a' <= contentType[k] <= 'z')
    ensures ImgTypeOfContentType(contentType) == Png
  {
    FirstCharAbsent(contentType, "png");
    FirstCharAbsent(contentType, "jpeg");
    FirstCharAbsent(contentType, "jpg");
    FirstCharAbsent(contentType, "gif");
    FirstCharAbsent(contentType, "bmp");
  }

  /** A string without the first character of `sub` does not contain `sub`. */
  lemma {:induction false} FirstCharAbsent(s: string, sub: string)
    requires |sub| > 0 && forall k | 0 <= k < |s| :: s[k] != sub[0]
    ensures !Contains(s, sub)
    decreases |s|
  {
    if |sub| <= |s| {
      assert s[..|sub|][0] == s[0];
    }
    if s != [] {
      assert forall k | 0 <= k < |s[1..]| :: s[1..][k] == s[k + 1];
      FirstCharAbsent(s[1..], sub);
    }
  }
}
