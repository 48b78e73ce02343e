/**
 * The pure parts of `Article`: which uploads are allowed, the file name
 * `createArticle` stores for an image, and the `data:image/...;base64,`
 * header `encodeImage` puts in front of a stored image.
 */
module Articles {
  import opened Wrappers
  import opened Text

  const AllowedContentTypes: seq<string> := ["image/jpeg", "image/png", "image/gif"]

  /** `allowedContentType`: `Objects.equals` against the three image types; `null` is refused. */
  function AllowedContentType(contentType: Option<string>): (r: bool)
    ensures r <==> contentType.Some? && contentType.value in AllowedContentTypes
  {
    contentType == Some("image/jpeg") || contentType == Some("image/png") || contentType == Some("image/gif")
  }

  /** The `switch` on the content type in `createArticle`. */
  function ImageExtension(contentType: string): string
  {
    match contentType
    case "image/jpeg" => ".jpg"
    case "image/png" => ".png"
    case "image/gif" => ".gif"
    case _ => ""
  }

  /** Exactly the allowed types get an extension, and each one is a dot and three lower-case letters. */
  lemma AllowedIffExtension(contentType: string)
    ensures AllowedContentType(Some(contentType)) <==> ImageExtension(contentType) != ""
    ensures ImageExtension(contentType) != "" ==>
      |ImageExtension(contentType)| == 4 && ImageExtension(contentType)[0] == '.'
    ensures ImageExtension(contentType) != "" ==>
      forall i :: 1 <= i < 4 ==> 'a' <= ImageExtension(contentType)[i] <= 'z'
  {
  }

  /** The image file name `createArticle` stores: `article_id + imageExtension`. */
  function StoredFileName(articleId: int, contentType: string): string
  {
    IntToString(articleId) + ImageExtension(contentType)
  }

  /**
   * `img_file_name.split("\\.", 2)[1]`: everything after the first `.`,
   * or `None` when the name has no `.` (the split then has one part).
   */
  function AfterFirstDot(name: string): (r: Option<string>)
    ensures r.None? <==> '.' !in name
  {
    if name == [] then None
    else if name[0] == '.' then Some(name[1..])
    else
      assert forall c :: c in name[1..] ==> c in name;
      assert '.' in name ==> '.' in name[1..] by {
        if '.' in name { var i :| 0 <= i < |name| && name[i] == '.'; assert name[1..][i - 1] == '.'; }
      }
      AfterFirstDot(name[1..])
  }

  /** The extension is what follows the first `.`: no `.` comes before it. */
  lemma {:induction false} AfterFirstDotIsFirst(name: string)
    requires '.' in name
    ensures exists i :: 0 <= i < |name| && name[i] == '.' && '.' !in name[..i] && AfterFirstDot(name) == Some(name[i + 1..])
  {
    if name[0] == '.' {
      assert name[..0] == [];
    } else {
      assert '.' in name[1..] by {
        var i :| 0 <= i < |name| && name[i] == '.';
        assert name[1..][i - 1] == '.';
      }
      AfterFirstDotIsFirst(name[1..]);
      var i :| 0 <= i < |name[1..]| && name[1..][i] == '.' && '.' !in name[1..][..i] && AfterFirstDot(name[1..]) == Some(name[1..][i + 1..]);
      assert name[..i + 1] == [name[0]] + name[1..][..i];
      assert name[1..][i + 1..] == name[i + 2..];
    }
  }

  /** A dot-free prefix does not move the first dot. */
  lemma {:induction false} AfterFirstDotSkips(prefix: string, rest: string)
    requires '.' !in prefix
    ensures AfterFirstDot(prefix + rest) == AfterFirstDot(rest)
  {
    if prefix != [] {
      var whole := prefix + rest;
      assert prefix[0] in prefix && whole[0] == prefix[0] && whole != [];
      assert whole[1..] == prefix[1..] + rest;
      assert AfterFirstDot(whole) == AfterFirstDot(whole[1..]);
      AfterFirstDotSkips(prefix[1..], rest);
    } else {
      assert prefix + rest == rest;
    }
  }

  /** The `switch` on the extension in `encodeImage`. */
  function MimeSubtype(extension: string): (subtype: string)
    ensures subtype in ["", "jpeg", "png", "gif"]
  {
    match extension
    case "jpg" => "jpeg"
    case "JPG" => "jpeg"
    case "jpeg" => "jpeg"
    case "JPEG" => "jpeg"
    case "png" => "png"
    case "PNG" => "png"
    case "gif" => "gif"
    case "GIF" => "gif"
    case _ => ""
  }

  /**
   * The header `encodeImage` builds before it reads the file, or `""` where
   * it returns early: a null or empty name, no `.`, or an unknown extension.
   */
  function ImageHeader(fileName: Option<string>): (r: string)
    ensures r == "" || r in [DataHeader("jpeg"), DataHeader("png"), DataHeader("gif")]
    ensures fileName.None? || fileName == Some("") ==> r == ""
  {
    if fileName.None? || fileName.value == "" then ""
    else match AfterFirstDot(fileName.value)
      case None => ""
      case Some(extension) =>
        var subtype := MimeSubtype(extension);
        if subtype == "" then "" else DataHeader(subtype)
  }

  /** `"data:image/" + extensionBase64 + ";base64,"`. */
  function DataHeader(subtype: string): string {
    "data:image/" + subtype + ";base64,"
  }

  /**
   * `encodeImage`. `fileBase64` stands for reading the file and encoding it
   * with `Base64`: `None` when the file is missing or cannot be read.
   */
  function EncodeImage(fileName: Option<string>, fileBase64: Option<string>): (r: string)
    ensures r != "" <==> ImageHeader(fileName) != "" && fileBase64.Some?
    ensures r != "" ==> |ImageHeader(fileName)| <= |r| && r[..|ImageHeader(fileName)|] == ImageHeader(fileName)
                        && r[|ImageHeader(fileName)|..] == fileBase64.value
  {
    var head := ImageHeader(fileName);
    if head == "" || fileBase64.None? then "" else head + fileBase64.value
  }

  /**
   * Round trip between the two switches: the name `createArticle` stores for
   * an allowed upload gets back its own MIME subtype in `encodeImage`; any
   * other type gives a name without a dot and no image.
   */
  lemma StoredFileNameRoundTrip(articleId: int, contentType: string)
    ensures AllowedContentType(Some(contentType)) ==>
      ImageHeader(Some(StoredFileName(articleId, contentType))) == DataHeader(contentType[6..])
    ensures !AllowedContentType(Some(contentType)) ==>
      '.' !in StoredFileName(articleId, contentType) && ImageHeader(Some(StoredFileName(articleId, contentType))) == ""
  {
    var digits, extension := IntToString(articleId), ImageExtension(contentType);
    DecimalHasNoDot(articleId);
    AfterFirstDotSkips(digits, extension);
    assert StoredFileName(articleId, contentType) == digits + extension;
    if AllowedContentType(Some(contentType)) {
      ExtensionNamesSubtype(contentType);
    } else {
      assert digits + extension == digits;
    }
  }

  /** Each allowed type's extension, read back by `encodeImage`, names the type's own subtype. */
  lemma ExtensionNamesSubtype(contentType: string)
    requires AllowedContentType(Some(contentType))
    ensures AfterFirstDot(ImageExtension(contentType)) == Some(ImageExtension(contentType)[1..])
    ensures |contentType| > 6 && MimeSubtype(ImageExtension(contentType)[1..]) == contentType[6..]
  {
    match contentType
    case "image/jpeg" =>
      assert AfterFirstDot(".jpg") == Some("jpg");
      assert contentType[6..] == "jpeg";
    case "image/png" =>
      assert AfterFirstDot(".png") == Some("png");
      assert contentType[6..] == "png";
    case "image/gif" =>
      assert AfterFirstDot(".gif") == Some("gif");
      assert contentType[6..] == "gif";
  }

  /** A rendered integer holds no `.`. */
  lemma DecimalHasNoDot(n: int)
    ensures '.' !in IntToString(n)
  {
  }

  /** An article as the bean holds it; `basePrice` is a Java `float`, carried and not computed with. */
  datatype Article = Article(
    id: int, ownerUserId: int, basePrice: real, auctionId: int,
    name: string, description: string, imageBase64: string)

  /** The private constructor: a null description becomes `""`, the image is encoded. */
  function NewArticle(id: int, ownerUserId: int, basePrice: real, auctionId: int, name: string,
                      description: Option<string>, imageFileName: Option<string>, fileBase64: Option<string>): (a: Article)
    ensures a.id == id && a.ownerUserId == ownerUserId && a.basePrice == basePrice
    ensures a.auctionId == auctionId && a.name == name
    ensures a.imageBase64 == EncodeImage(imageFileName, fileBase64)
    ensures description.None? ==> a.description == ""
    ensures description.Some? ==> a.description == description.value
  {
    Article(id, ownerUserId, basePrice, auctionId, name, description.GetOr(""), EncodeImage(imageFileName, fileBase64))
  }
}
