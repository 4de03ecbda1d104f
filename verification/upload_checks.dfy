/**
 * The three checks applied to one uploaded object (size, extension, file
 * signature), the verdict they combine into, and the text of the errors.
 */
module UploadChecks {
  import opened JsString
  import opened ObjectStore

  /** 200 MiB. */
  const MaxFileSize: nat := 200 * 1024 * 1024
  const AllowedExtensions: seq<string> := [".jpg", ".jpeg", ".png"]
  const JpegSignature: seq<bv8> := [0xFF, 0xD8, 0xFF]
  const PngSignature: seq<bv8> := [0x89, 0x50, 0x4E, 0x47]
  const NoHeadersWarning: string := "Could not read file headers for MIME type validation"
  const ReadErrorWarning: string := "MIME type validation skipped due to read error"

  datatype ValidationError =
    | SizeTooLarge(size: nat)
    | ExtensionNotAllowed(extension: string)
    | SignatureMismatch

  /** The result of one check: valid, with the warnings it raised, or invalid, with its error. */
  datatype CheckResult = Valid(warnings: seq<string>) | Invalid(error: ValidationError)

  /** `validateFileSize`: a size exactly at the limit passes. */
  function ValidateFileSize(size: nat): (r: CheckResult)
    ensures r.Invalid? <==> size > 209715200
    ensures r.Invalid? ==> r.error == SizeTooLarge(size)
    ensures r.Valid? ==> r.warnings == []
  {
    if size > MaxFileSize then Invalid(SizeTooLarge(size)) else Valid([])
  }

  /**
   * The extension `validateFileExtension` compares: the lower-cased key from
   * its last '.' on, or, when the key has no '.', the whole lower-cased key
   * (`lastIndexOf` gives -1 and `substring(-1)` starts at 0).
   */
  function FileExtension(filename: string): (ext: string)
    ensures '.' !in filename ==> ext == ToLower(filename)
    ensures '.' in filename ==> 1 <= |ext| <= |filename| && ext[0] == '.' && '.' !in ext[1..]
    ensures '.' in filename ==> ext == ToLower(filename)[|filename| - |ext|..]
  {
    var i := LastIndexOf(filename, '.');
    LowerKeepsDots(filename);
    Substring(ToLower(filename), i)
  }

  /** Lower-casing keeps every '.' where it is and adds none. */
  lemma LowerKeepsDots(s: string)
    ensures forall j :: 0 <= j < |s| ==> (ToLower(s)[j] == '.' <==> s[j] == '.')
  {
    forall j | 0 <= j < |s|
      ensures ToLower(s)[j] == '.' <==> s[j] == '.'
    {
      LowerCharKeepsDot(s[j]);
    }
  }

  /** `validateFileExtension`. */
  function ValidateFileExtension(filename: string): (r: CheckResult)
    ensures r.Invalid? <==> FileExtension(filename) !in AllowedExtensions
    ensures r.Invalid? ==> r.error == ExtensionNotAllowed(FileExtension(filename))
    ensures r.Valid? ==> r.warnings == []
  {
    var ext := FileExtension(filename);
    if ext !in AllowedExtensions then Invalid(ExtensionNotAllowed(ext)) else Valid([])
  }

  /** A suffix that starts with '.' and has no other '.' is determined by where the last '.' is. */
  lemma DotSuffixUnique(s: string, a: string, b: string)
    requires EndsWith(s, a) && EndsWith(s, b)
    requires |a| >= 1 && a[0] == '.' && '.' !in a[1..]
    requires |b| >= 1 && b[0] == '.' && '.' !in b[1..]
    ensures a == b
  {
  }

  /** A key without '.' has no lower-cased suffix that starts with '.'. */
  lemma NoDotNoDotSuffix(filename: string, e: string)
    requires '.' !in filename && |e| >= 1 && e[0] == '.'
    ensures !EndsWith(ToLower(filename), e)
  {
    if EndsWith(ToLower(filename), e) {
      var i := |filename| - |e|;
      LowerCharKeepsDot(filename[i]);
      assert false;
    }
  }

  predicate HasAllowedSuffix(lower: string) {
    EndsWith(lower, ".jpg") || EndsWith(lower, ".jpeg") || EndsWith(lower, ".png")
  }

  /** The extension check accepts exactly the keys whose lower-cased form ends in ".jpg", ".jpeg" or ".png". */
  lemma ExtensionAcceptedIff(filename: string)
    ensures ValidateFileExtension(filename).Valid? <==> HasAllowedSuffix(ToLower(filename))
  {
    if '.' !in filename {
      DotlessExtensionRejected(filename);
    } else {
      DottedExtension(filename);
    }
  }

  lemma DotlessExtensionRejected(filename: string)
    requires '.' !in filename
    ensures ValidateFileExtension(filename).Invalid? && !HasAllowedSuffix(ToLower(filename))
  {
    var lower := ToLower(filename);
    NoDotNoDotSuffix(filename, ".jpg");
    NoDotNoDotSuffix(filename, ".jpeg");
    NoDotNoDotSuffix(filename, ".png");
    assert '.' !in lower by {
      forall j | 0 <= j < |filename| ensures lower[j] != '.' {
        LowerCharKeepsDot(filename[j]);
      }
    }
    assert ".jpg"[0] == '.' && ".jpeg"[0] == '.' && ".png"[0] == '.';
    assert FileExtension(filename) == lower;
  }

  lemma DottedExtension(filename: string)
    requires '.' in filename
    ensures ValidateFileExtension(filename).Valid? <==> HasAllowedSuffix(ToLower(filename))
  {
    var lower := ToLower(filename);
    if EndsWith(lower, ".jpg") {
      SuffixIsExtension(filename, ".jpg");
    } else if EndsWith(lower, ".jpeg") {
      SuffixIsExtension(filename, ".jpeg");
    } else if EndsWith(lower, ".png") {
      SuffixIsExtension(filename, ".png");
    } else {
      NoAllowedSuffixRejected(filename);
    }
  }

  /** A key whose lower-cased form ends in none of the allowed extensions has an extension that is not allowed. */
  lemma NoAllowedSuffixRejected(filename: string)
    requires !HasAllowedSuffix(ToLower(filename))
    ensures FileExtension(filename) !in AllowedExtensions
  {
    ExtensionIsSuffix(filename);
    AllowedSuffixOf(ToLower(filename), FileExtension(filename));
  }

  /** Ending in one of the allowed extensions is having an allowed suffix. */
  lemma AllowedSuffixOf(lower: string, e: string)
    ensures e in AllowedExtensions && EndsWith(lower, e) ==> HasAllowedSuffix(lower)
  {
    if e in AllowedExtensions {
      assert e == ".jpg" || e == ".jpeg" || e == ".png";
    }
  }

  /** The lower-cased key ends with its extension. */
  lemma ExtensionIsSuffix(filename: string)
    ensures EndsWith(ToLower(filename), FileExtension(filename))
  {
  }

  /** An allowed extension that the lower-cased key ends with is the key's extension. */
  lemma SuffixIsExtension(filename: string, e: string)
    requires '.' in filename && e in AllowedExtensions && EndsWith(ToLower(filename), e)
    ensures FileExtension(filename) == e
  {
    AllowedExtensionShape(e);
    DotSuffixUnique(ToLower(filename), FileExtension(filename), e);
  }

  /** Each allowed extension is a '.' followed by no other '.'. */
  lemma AllowedExtensionShape(e: string)
    requires e in AllowedExtensions
    ensures |e| >= 1 && e[0] == '.' && '.' !in e[1..]
  {
    if e == ".jpg" {
      assert e[1..] == "jpg";
    } else if e == ".jpeg" {
      assert e[1..] == "jpeg";
    } else {
      assert e[1..] == "png";
    }
  }

  /** An upper-case extension passes. */
  lemma UpperCaseExtensionAccepted()
    ensures ValidateFileExtension("a.PNG").Valid?
  {
    PngSpelling();
    ExtensionAcceptedIff("a.PNG");
  }

  lemma PngSpelling()
    ensures EndsWith(ToLower("a.PNG"), ".png")
  {
    assert ToLower("a.PNG") == "a.png";
    assert "a.png"[1..] == ".png";
  }

  /** A key without '.' is compared whole, so "png" fails. */
  lemma DotlessKeyRejected()
    ensures ValidateFileExtension("png") == Invalid(ExtensionNotAllowed("png"))
  {
    var key := "png";
    assert '.' !in key;
    assert ToLower(key) == key;
    assert |key| == 3 && |".jpg"| == 4 && |".jpeg"| == 5 && |".png"| == 4;
  }

  /** The extension of a key is its last '.' and what follows it, lower-cased. */
  lemma ExtensionAfterLastDot(stem: string, tail: string)
    requires '.' !in tail
    ensures FileExtension(stem + "." + tail) == "." + ToLower(tail)
  {
    var key := stem + "." + tail;
    assert key[|stem|] == '.';
    LowerTailIsSuffix(stem, tail);
    LowerHasNoDot(tail);
    assert ("." + ToLower(tail))[1..] == ToLower(tail);
    DotSuffixUnique(ToLower(key), FileExtension(key), "." + ToLower(tail));
  }

  /** Lower-casing a key keeps its lower-cased tail at the end. */
  lemma LowerTailIsSuffix(stem: string, tail: string)
    ensures EndsWith(ToLower(stem + "." + tail), "." + ToLower(tail))
  {
    var key := stem + "." + tail;
    var lower := ToLower(key);
    var e := "." + ToLower(tail);
    assert |lower| - |e| == |stem|;
    forall j | 0 <= j < |e|
      ensures lower[|stem| + j] == e[j]
    {
      assert lower[|stem| + j] == LowerChar(key[|stem| + j]);
      if j == 0 {
        assert key[|stem|] == '.';
      } else {
        assert key[|stem| + j] == tail[j - 1];
        assert e[j] == ToLower(tail)[j - 1];
      }
    }
    assert lower[|stem|..] == e;
  }

  /** Lower-casing a string without '.' gives a string without '.'. */
  lemma LowerHasNoDot(s: string)
    requires '.' !in s
    ensures '.' !in ToLower(s)
  {
    LowerKeepsDots(s);
  }

  /** Whatever precedes it, a key ending in ".exe" fails, "a.jpg.exe" among them: only the last '.' counts. */
  lemma LastDotDecides(stem: string)
    ensures ValidateFileExtension(stem + ".exe") == Invalid(ExtensionNotAllowed(".exe"))
  {
    ExeExtension(stem);
    ExeNotAllowed();
  }

  lemma ExeExtension(stem: string)
    ensures FileExtension(stem + ".exe") == ".exe"
  {
    ExeSpelling(stem);
    ExtensionAfterLastDot(stem, "exe");
  }

  lemma ExeSpelling(stem: string)
    ensures stem + "." + "exe" == stem + ".exe"
    ensures "." + ToLower("exe") == ".exe"
  {
    assert ToLower("exe") == "exe";
  }

  lemma ExeNotAllowed()
    ensures ".exe" !in AllowedExtensions
  {
    assert ".exe"[1] != ".jpg"[1] && |".exe"| != |".jpeg"| && ".exe"[1] != ".png"[1];
  }

  /** A trailing '.' gives the extension ".", which fails. */
  lemma TrailingDotRejected()
    ensures ValidateFileExtension("a.") == Invalid(ExtensionNotAllowed("."))
  {
    assert LastIndexOf("a.", '.') == 1;
    assert ToLower("a.")[1..] == ".";
  }

  /** Byte i exists and equals v; a lookup past the end yields undefined, which equals no byte. */
  predicate ByteIs(bytes: seq<bv8>, i: nat, v: bv8) {
    i < |bytes| && bytes[i] == v
  }

  /**
   * The classification inside `validateMimeType`, given what the ranged read
   * returned: an error or fewer than 2 bytes is inconclusive (valid, one
   * warning); otherwise the bytes must begin with the JPEG or PNG signature.
   */
  function ClassifySignature(read: ReadResult): (r: CheckResult)
    ensures read.ReadFailed? ==> r == Valid([ReadErrorWarning])
    ensures read.Body? && |read.bytes| < 2 ==> r == Valid([NoHeadersWarning])
    ensures read.Body? && |read.bytes| >= 2 ==>
      (r.Valid? <==> StartsWith(read.bytes, JpegSignature) || StartsWith(read.bytes, PngSignature))
    ensures read.Body? && |read.bytes| >= 2 ==> r == Valid([]) || r == Invalid(SignatureMismatch)
  {
    match read
    case ReadFailed => Valid([ReadErrorWarning])
    case Body(bytes) =>
      if |bytes| < 2 then Valid([NoHeadersWarning])
      else if ByteIs(bytes, 0, 0xFF) && ByteIs(bytes, 1, 0xD8) && ByteIs(bytes, 2, 0xFF) then Valid([])
      else if ByteIs(bytes, 0, 0x89) && ByteIs(bytes, 1, 0x50) && ByteIs(bytes, 2, 0x4E) && ByteIs(bytes, 3, 0x47) then Valid([])
      else Invalid(SignatureMismatch)
  }

  /** A 2- or 3-byte body is too short for the PNG signature, and a 2-byte one for the JPEG one too. */
  lemma ShortBodies(b0: bv8, b1: bv8, b2: bv8)
    ensures ClassifySignature(Body([b0, b1])) == Invalid(SignatureMismatch)
    ensures ClassifySignature(Body([b0, b1, b2])).Valid? <==> [b0, b1, b2] == JpegSignature
  {
  }

  /** The verdict on one object. */
  datatype Verdict = Accepted(warnings: seq<string>) | Rejected(errors: seq<ValidationError>)

  /** The errors of the size and extension checks: both always run, size first. */
  function CheapErrors(size: nat, key: string): (errs: seq<ValidationError>)
    ensures errs == [] <==> size <= MaxFileSize && FileExtension(key) in AllowedExtensions
    ensures |errs| <= 2
  {
    var sizeCheck := ValidateFileSize(size);
    var extensionCheck := ValidateFileExtension(key);
    (if sizeCheck.Invalid? then [sizeCheck.error] else [])
    + (if extensionCheck.Invalid? then [extensionCheck.error] else [])
  }

  /**
   * Exactly which errors the two cheap checks contribute: the size error
   * (carrying the size) when the size is over the limit, then the extension
   * error (carrying the extracted extension) when it is not allowed.
   */
  lemma CheapErrorsExactly(size: nat, key: string)
    ensures CheapErrors(size, key)
      == (if size > MaxFileSize then [SizeTooLarge(size)] else [])
         + (if FileExtension(key) !in AllowedExtensions then [ExtensionNotAllowed(FileExtension(key))] else [])
  {
  }

  /**
   * The verdict on one object given what its ranged read returns. The read
   * only matters when the size and extension checks pass, as the handler
   * issues it only then.
   */
  function ValidateObject(size: nat, key: string, read: ReadResult): (v: Verdict)
    ensures v.Accepted? <==> size <= MaxFileSize && FileExtension(key) in AllowedExtensions && ClassifySignature(read).Valid?
    ensures v.Rejected? ==> |v.errors| >= 1
  {
    var errs := CheapErrors(size, key);
    if errs != [] then Rejected(errs)
    else match ClassifySignature(read)
      case Valid(w) => Accepted(w)
      case Invalid(e) => Rejected([e])
  }

  /** When size and extension both fail, the errors are exactly those two, size first, whatever the content. */
  lemma BothCheapErrorsInOrder(size: nat, key: string, read: ReadResult)
    requires size > MaxFileSize && FileExtension(key) !in AllowedExtensions
    ensures ValidateObject(size, key, read) == Rejected([SizeTooLarge(size), ExtensionNotAllowed(FileExtension(key))])
  {
  }

  /** Once a cheap check has failed, the content is irrelevant: the verdict is the same for every read result. */
  lemma ReadIrrelevantWhenCheapFails(size: nat, key: string, r1: ReadResult, r2: ReadResult)
    requires size > MaxFileSize || FileExtension(key) !in AllowedExtensions
    ensures ValidateObject(size, key, r1) == ValidateObject(size, key, r2)
    ensures ValidateObject(size, key, r1).errors == CheapErrors(size, key)
  {
  }

  /** An inconclusive read never rejects: it accepts with exactly one warning. */
  lemma InconclusiveReadAccepts(size: nat, key: string, read: ReadResult)
    requires size <= MaxFileSize && FileExtension(key) in AllowedExtensions
    requires read.ReadFailed? || |read.bytes| < 2
    ensures ValidateObject(size, key, read).Accepted?
    ensures ValidateObject(size, key, read).warnings == [if read.ReadFailed? then ReadErrorWarning else NoHeadersWarning]
  {
  }

  /** An oversized object with an allowed extension is rejected with the size error alone, whatever the content. */
  lemma SizeOnlyError(size: nat, key: string, read: ReadResult)
    requires size > MaxFileSize && FileExtension(key) in AllowedExtensions
    ensures ValidateObject(size, key, read) == Rejected([SizeTooLarge(size)])
  {
  }

  /** An object within the size limit whose extension is not allowed is rejected with the extension error alone. */
  lemma ExtensionOnlyError(size: nat, key: string, read: ReadResult)
    requires size <= MaxFileSize && FileExtension(key) !in AllowedExtensions
    ensures ValidateObject(size, key, read) == Rejected([ExtensionNotAllowed(FileExtension(key))])
  {
  }

  /** A conclusive signature check raises no warning, and a rejection by it carries exactly its one error. */
  lemma SignatureVerdict(size: nat, key: string, bytes: seq<bv8>)
    requires size <= MaxFileSize && FileExtension(key) in AllowedExtensions && |bytes| >= 2
    ensures ValidateObject(size, key, Body(bytes)) ==
      if StartsWith(bytes, JpegSignature) || StartsWith(bytes, PngSignature) then Accepted([])
      else Rejected([SignatureMismatch])
  {
  }

  const SizeTextTail: string := "MB exceeds the 200MB limit"
  const ExtensionTextTail: string := "' is not allowed. Only JPEG and PNG files are permitted (.jpg, .jpeg, .png)"
  const SignatureText: string := "File does " + "not appear to be a valid JPEG or PNG image based on file headers"
  const FailurePrefix: string := "File validation failed: "

  const SizeTextHead: string := "File size "
  const ExtensionTextHead: string := "File extension '"

  /**
   * The error strings collected by the handler. Each names the check that
   * failed, and an extension error quotes the rejected extension verbatim.
   */
  function ErrorText(e: ValidationError): (r: string)
    ensures StartsWith(r, SizeTextHead) <==> e.SizeTooLarge?
    ensures e.ExtensionNotAllowed? ==> StartsWith(r, ExtensionTextHead + e.extension)
  {
    match e
    case SizeTooLarge(size) =>
      PrefixOfConcat(SizeTextHead, MiBText(size) + SizeTextTail);
      SizeTextHead + (MiBText(size) + SizeTextTail)
    case ExtensionNotAllowed(ext) =>
      PrefixOfConcat(ExtensionTextHead + ext, ExtensionTextTail);
      assert (ExtensionTextHead + ext + ExtensionTextTail)[5] == ExtensionTextHead[5];
      MismatchAt(ExtensionTextHead + ext + ExtensionTextTail, SizeTextHead, 5);
      ExtensionTextHead + ext + ExtensionTextTail
    case SignatureMismatch =>
      assert SignatureText[5] == 'd' && SizeTextHead[5] == 's';
      MismatchAt(SignatureText, SizeTextHead, 5);
      SignatureText
  }

  lemma PrefixOfConcat(a: string, b: string)
    ensures StartsWith(a + b, a)
  {
    assert (a + b)[..|a|] == a;
  }

  /** A string that differs from a prefix at some index does not start with it. */
  lemma MismatchAt(s: string, prefix: string, i: nat)
    requires i < |s| && i < |prefix| && s[i] != prefix[i]
    ensures !StartsWith(s, prefix)
  {
    assert |prefix| > |s| || s[..|prefix|][i] != prefix[i];
  }

  function ErrorTexts(errors: seq<ValidationError>): seq<string> {
    seq(|errors|, i requires 0 <= i < |errors| => ErrorText(errors[i]))
  }

  /** The message of the Error the handler throws for a rejected object. */
  function FailureMessage(errors: seq<ValidationError>): (r: string)
    ensures StartsWith(r, FailurePrefix)
    ensures errors != [] ==> StartsWith(r, FailurePrefix + ErrorText(errors[0]))
  {
    FailurePrefix + Join(ErrorTexts(errors), "; ")
  }

  /** With one error the message is the prefix and its text. */
  lemma FailureMessageOne(e: ValidationError)
    ensures FailureMessage([e]) == FailurePrefix + ErrorText(e)
  {
    var t := ErrorText(e);
    assert ErrorTexts([e]) == [t];
    JoinOne(t, "; ");
  }

  /** With two errors the message is the prefix and both texts joined by "; ", in order. */
  lemma FailureMessageTwo(e1: ValidationError, e2: ValidationError)
    ensures FailureMessage([e1, e2]) == FailurePrefix + (ErrorText(e1) + "; " + ErrorText(e2))
  {
    var t1, t2 := ErrorText(e1), ErrorText(e2);
    assert ErrorTexts([e1, e2]) == [t1, t2];
    JoinTwo(t1, t2, "; ");
  }

  /** A 300 MiB object is reported as "300.00MB". */
  lemma SizeErrorExample()
    ensures MiBText(300 * 1024 * 1024) == "300.00"
  {
    assert MiBHundredths(300 * 1024 * 1024) == 30000;
    assert NatToDecimal(3) == "3";
    assert NatToDecimal(30) == "30";
    assert NatToDecimal(300) == "300";
  }
}
