/** `validateFile`: the checks on the uploaded spreadsheet before it is parsed. */
module FileCheck {
  import opened Options
  import opened Text
  import opened Limits

  type byte = x: int | 0 <= x < 256

  /** The multer file object: original name, MIME type, size and contents
      (`buffer` is `None` when the property is missing). */
  datatype UploadedFile = UploadedFile(originalname: string, mimetype: string, size: nat, buffer: Option<seq<byte>>)

  datatype FileError = NoFile | TooLarge | BadExtension | BadType | EmptyFile

  function FileErrorMessage(e: FileError): string {
    match e
    case NoFile => "No file uploaded"
    case TooLarge => "File size exceeds maximum limit of 10MB"
    case BadExtension => "Invalid file extension. Allowed types: CSV, XLSX, XLS"
    case BadType => "Invalid file type. Allowed types: CSV, XLSX, XLS"
    case EmptyFile => "File is empty"
  }

  /** The `warnings` list of `validateFile` is always empty, so it is not carried. */
  datatype FileVerdict = FileVerdict(isValid: bool, errors: seq<FileError>)

  /** `"." + name.split(".").pop().toLowerCase()` */
  function Extension(name: string): string {
    "." + ToLowerAscii(AfterLastDot(name))
  }

  predicate HasContent(f: UploadedFile) {
    f.buffer.Some? && |f.buffer.value| > 0
  }

  function ValidateFile(file: Option<UploadedFile>): (r: FileVerdict)
    ensures file.None? ==> r == FileVerdict(false, [NoFile])
    ensures r.isValid <==> r.errors == []
    ensures file.Some? ==>
      (r.isValid <==>
        && file.value.size <= MaxFileSize
        && Extension(file.value.originalname) in AllowedExtensions
        && file.value.mimetype in AllowedTypes
        && HasContent(file.value))
    ensures file.Some? ==> NoFile !in r.errors
    ensures file.Some? ==> (TooLarge in r.errors <==> file.value.size > MaxFileSize)
    ensures file.Some? ==> (BadExtension in r.errors <==> Extension(file.value.originalname) !in AllowedExtensions)
    ensures file.Some? ==> (BadType in r.errors <==> file.value.mimetype !in AllowedTypes)
    ensures file.Some? ==> (EmptyFile in r.errors <==> !HasContent(file.value))
  {
    match file
    case None => FileVerdict(false, [NoFile])
    case Some(f) =>
      var errors := FileErrors(f.size > MaxFileSize, Extension(f.originalname) !in AllowedExtensions,
        f.mimetype !in AllowedTypes, !HasContent(f));
      FileVerdict(|errors| == 0, errors)
  }

  /** The four checks on a present file, in source order, each pushing its
      error when it fails. */
  function FileErrors(tooLarge: bool, badExtension: bool, badType: bool, empty: bool): (errors: seq<FileError>)
    ensures TooLarge in errors <==> tooLarge
    ensures BadExtension in errors <==> badExtension
    ensures BadType in errors <==> badType
    ensures EmptyFile in errors <==> empty
    ensures NoFile !in errors
    ensures errors == [] <==> !tooLarge && !badExtension && !badType && !empty
  {
    (if tooLarge then [TooLarge] else [])
    + (if badExtension then [BadExtension] else [])
    + (if badType then [BadType] else [])
    + (if empty then [EmptyFile] else [])
  }

  /** A name in lower case ends in ".csv", ".xlsx" or ".xls", or is exactly
      "csv", "xlsx" or "xls" (a name without any dot is its own extension). */
  predicate AcceptedName(name: string) {
    var l := ToLowerAscii(name);
    EndsWithExtension(l, "csv") || EndsWithExtension(l, "xlsx") || EndsWithExtension(l, "xls")
  }

  lemma {:induction false} DotPrefixInjective(x: string, y: string)
    ensures "." + x == "." + y <==> x == y
  {
    if "." + x == "." + y {
      assert x == ("." + x)[1..];
    }
  }

  /** The extension rule, stated on the whole file name. */
  lemma {:induction false} ExtensionAcceptedIff(name: string)
    ensures Extension(name) in AllowedExtensions <==> AcceptedName(name)
  {
    var l := ToLowerAscii(name);
    LowerAfterLastDot(name);
    var x := AfterLastDot(l);
    var y := Extension(name);
    assert y == "." + x;
    assert y in AllowedExtensions <==> y == ".csv" || y == ".xlsx" || y == ".xls";
    assert ".csv" == "." + "csv" && ".xlsx" == "." + "xlsx" && ".xls" == "." + "xls";
    DotPrefixInjective(x, "csv");
    DotPrefixInjective(x, "xlsx");
    DotPrefixInjective(x, "xls");
    AfterLastDotIs(l, "csv");
    AfterLastDotIs(l, "xlsx");
    AfterLastDotIs(l, "xls");
  }
}
