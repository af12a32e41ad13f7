/**
 * The validate-image edge function: a magic-byte signature table, the two
 * byte-matching loops that read it, and the request handler's chain of guards,
 * with the hosting calls (auth exchange, multipart parsing) given as inputs.
 */
module ImageCheck {
  import opened Common

  /** One element of the Uint8Array built from the uploaded file. */
  type Byte = b: int | 0 <= b < 256

  datatype MimeType = Jpeg | Png | Gif | Webp

  function MimeName(t: MimeType): string {
    match t
    case Jpeg => "image/jpeg"
    case Png => "image/png"
    case Gif => "image/gif"
    case Webp => "image/webp"
  }

  /** ALLOWED_MIME_TYPES */
  const AllowedMimeTypes: seq<string> := ["image/jpeg", "image/png", "image/webp", "image/gif"]

  /** MAX_FILE_SIZE: 5 MiB. */
  const MaxFileSize: nat := 5 * 1024 * 1024

  /** The keys of MAGIC_BYTES in declaration order, which is the order Object.entries yields them. */
  const TableOrder: seq<MimeType> := [Jpeg, Png, Gif, Webp]

  /** The signatures MAGIC_BYTES lists for each type (one each). */
  function Signatures(t: MimeType): seq<seq<Byte>> {
    match t
    case Jpeg => [[0xFF, 0xD8, 0xFF]]
    case Png => [[0x89, 0x50, 0x4E, 0x47]]
    case Gif => [[0x47, 0x49, 0x46, 0x38]]
    case Webp => [[0x52, 0x49, 0x46, 0x46]]
  }

  /** The fourcc that must follow a RIFF header at offset 8 for WebP. */
  const WebpFourcc: seq<Byte> := [0x57, 0x45, 0x42, 0x50]

  /** `MAGIC_BYTES[declaredType]`: the table entry whose key is exactly the declared string. */
  function Lookup(declared: string): (r: Option<MimeType>)
    ensures r.Some? ==> MimeName(r.value) == declared
    ensures r.None? ==> forall t: MimeType :: MimeName(t) != declared
  {
    if declared == "image/jpeg" then Some(Jpeg)
    else if declared == "image/png" then Some(Png)
    else if declared == "image/gif" then Some(Gif)
    else if declared == "image/webp" then Some(Webp)
    else None
  }

  /**
   * `bytes[offset + i] === sig[i]` for every i of the signature. Reading past
   * the end of a Uint8Array gives undefined, which equals no number, so a file
   * too short for the signature does not match.
   */
  predicate MatchesAt(bytes: seq<Byte>, offset: nat, sig: seq<Byte>)
    ensures MatchesAt(bytes, offset, sig) && sig != [] ==> offset + |sig| <= |bytes|
  {
    assert sig != [] ==> sig[|sig| - 1] in sig;
    forall i :: 0 <= i < |sig| ==> offset + i < |bytes| && bytes[offset + i] == sig[i]
  }

  /**
   * The content matches type t as the table says: one of its signatures at
   * offset 0 and, for WebP, the fourcc at offset 8. Matching content is at
   * least as long as the signature, and WebP content holds the whole fourcc.
   */
  predicate TableMatch(bytes: seq<Byte>, t: MimeType)
    ensures TableMatch(bytes, t) ==> |Signatures(t)[0]| <= |bytes|
    ensures TableMatch(bytes, t) && t == Webp ==> 12 <= |bytes|
  {
    assert forall i :: 0 <= i < |Signatures(t)| ==> Signatures(t)[i] == Signatures(t)[0];
    && (exists i :: 0 <= i < |Signatures(t)| && MatchesAt(bytes, 0, Signatures(t)[i]))
    && (t == Webp ==> MatchesAt(bytes, 8, WebpFourcc))
  }

  /** The first type, in the given order, whose content check passes: a reported type is one of the order and passes. */
  function FirstMatch(bytes: seq<Byte>, order: seq<MimeType>): (r: Option<MimeType>)
    ensures r.Some? ==> r.value in order && TableMatch(bytes, r.value)
  {
    if order == [] then None
    else if TableMatch(bytes, order[0]) then Some(order[0])
    else FirstMatch(bytes, order[1..])
  }

  /** One differing (or missing) byte is enough to refute a match. */
  lemma MismatchRefutes(bytes: seq<Byte>, offset: nat, sig: seq<Byte>, i: int)
    requires 0 <= i < |sig| && !(offset + i < |bytes| && bytes[offset + i] == sig[i])
    ensures !MatchesAt(bytes, offset, sig)
  {
    if offset + i < |bytes| {
      assert bytes[offset + i] != sig[i];
    } else {
      assert sig[i] in sig;
    }
  }

  /** A match at an offset fixes every byte of the signature there. */
  lemma MatchedByte(bytes: seq<Byte>, offset: nat, sig: seq<Byte>, i: int)
    requires MatchesAt(bytes, offset, sig) && 0 <= i < |sig|
    ensures offset + i < |bytes| && bytes[offset + i] == sig[i]
  {
  }

  /** One inner loop of the source: the `matches` flag cleared by the first differing byte. */
  method SignatureMatches(bytes: seq<Byte>, offset: nat, sig: seq<Byte>) returns (matches: bool)
    ensures matches <==> MatchesAt(bytes, offset, sig)
  {
    matches := true;
    var i := 0;
    while i < |sig|
      invariant 0 <= i <= |sig|
      invariant matches
      invariant forall k :: 0 <= k < i ==> offset + k < |bytes| && bytes[offset + k] == sig[k]
    {
      if offset + i >= |bytes| || bytes[offset + i] != sig[i] {
        matches := false;
        MismatchRefutes(bytes, offset, sig, i);
        break;
      }
      i := i + 1;
    }
    if matches {
      assert i == |sig|;
    }
  }

  /** validateMagicBytes: does the content carry the signature of the declared type? */
  method ValidateMagicBytes(bytes: seq<Byte>, declared: string) returns (valid: bool)
    ensures valid <==> Lookup(declared).Some? && TableMatch(bytes, Lookup(declared).value)
  {
    var entry := Lookup(declared);
    if entry.None? {
      return false;
    }
    var t := entry.value;
    var signatures := Signatures(t);
    var j := 0;
    while j < |signatures|
      invariant 0 <= j <= |signatures|
      invariant forall k :: 0 <= k < j ==> !MatchesAt(bytes, 0, signatures[k])
    {
      var matches := SignatureMatches(bytes, 0, signatures[j]);
      if matches {
        if t == Webp {
          var fourcc := SignatureMatches(bytes, 8, WebpFourcc);
          if !fourcc {
            return false;
          }
        }
        return true;
      }
      j := j + 1;
    }
    return false;
  }

  /** detectActualType: scan the table in order and report the first type whose content check passes, or null. */
  method DetectActualType(bytes: seq<Byte>) returns (detected: Option<MimeType>)
    ensures detected == FirstMatch(bytes, TableOrder)
  {
    var n := 0;
    while n < |TableOrder|
      invariant 0 <= n <= |TableOrder|
      invariant FirstMatch(bytes, TableOrder) == FirstMatch(bytes, TableOrder[n..])
    {
      var t := TableOrder[n];
      var signatures := Signatures(t);
      var j := 0;
      while j < |signatures|
        invariant 0 <= j <= |signatures|
        invariant forall k :: 0 <= k < j ==> !MatchesAt(bytes, 0, signatures[k]) || (t == Webp && !MatchesAt(bytes, 8, WebpFourcc))
      {
        var matches := SignatureMatches(bytes, 0, signatures[j]);
        if matches {
          if t == Webp {
            var fourcc := SignatureMatches(bytes, 8, WebpFourcc);
            if fourcc {
              return Some(t);
            }
          } else {
            return Some(t);
          }
        }
        j := j + 1;
      }
      assert TableOrder[n..][1..] == TableOrder[n + 1..];
      n := n + 1;
    }
    return None;
  }

  // ----- The signatures against the file formats -----

  /** The code points of an ASCII string, as bytes. */
  function Ascii(s: string): (r: seq<Byte>)
    requires forall i :: 0 <= i < |s| ==> s[i] < 128 as char
    ensures |r| == |s|
  {
    if s == [] then [] else [s[0] as int] + Ascii(s[1..])
  }

  /**
   * The signatures as the format documents give them: the JPEG SOI marker FF D8
   * followed by the 0xFF that opens the next marker (ITU-T T.81, Annex B); the
   * first four bytes of the PNG signature, 0x89 then "PNG" (PNG specification,
   * section 5.2); "GIF8" (GIF89a specification, section 17); and a RIFF header
   * whose form type at offset 8 is "WEBP" (RFC 9649, RIFF Header). Content
   * carrying one is at least as long as the table's signature for the type.
   */
  predicate FormatSignature(bytes: seq<Byte>, t: MimeType)
    ensures FormatSignature(bytes, t) ==> |Signatures(t)[0]| <= |bytes|
    ensures FormatSignature(bytes, t) && t == Webp ==> 12 <= |bytes|
  {
    match t
    case Jpeg => [0xFF, 0xD8, 0xFF] <= bytes
    case Png => [0x89] + Ascii("PNG") <= bytes
    case Gif => Ascii("GIF8") <= bytes
    case Webp => Ascii("RIFF") <= bytes && MatchesAt(bytes, 8, Ascii("WEBP"))
  }

  lemma MatchesAtStart(bytes: seq<Byte>, sig: seq<Byte>)
    ensures MatchesAt(bytes, 0, sig) <==> sig <= bytes
  {
    if MatchesAt(bytes, 0, sig) && |sig| > 0 {
      assert 0 + (|sig| - 1) < |bytes| && bytes[0 + (|sig| - 1)] == sig[|sig| - 1];
    }
    if sig <= bytes {
      forall i | 0 <= i < |sig| ensures 0 + i < |bytes| && bytes[0 + i] == sig[i] {
        assert bytes[..|sig|][i] == bytes[i];
      }
    }
  }

  /** Whatever passes the check for t starts with the first byte of t's signature. */
  lemma FirstByteDecides(bytes: seq<Byte>, t: MimeType)
    requires TableMatch(bytes, t)
    ensures |bytes| > 0 && bytes[0] == Signatures(t)[0][0]
  {
    var i :| 0 <= i < |Signatures(t)| && MatchesAt(bytes, 0, Signatures(t)[i]);
    assert i == 0;
    MatchedByte(bytes, 0, Signatures(t)[0], 0);
  }

  /** The table's hexadecimal constants are exactly the published signatures. */
  lemma TableMatchesFormats(bytes: seq<Byte>, t: MimeType)
    ensures TableMatch(bytes, t) <==> FormatSignature(bytes, t)
  {
    var sig := Signatures(t)[0];
    MatchesAtStart(bytes, sig);
    AsciiSignatures();
    assert forall i :: 0 <= i < |Signatures(t)| ==> Signatures(t)[i] == sig;
    if MatchesAt(bytes, 0, sig) {
      assert 0 <= 0 < |Signatures(t)| && MatchesAt(bytes, 0, Signatures(t)[0]);
    }
    match t
    case Jpeg =>
    case Png => assert sig == [0x89] + Ascii("PNG");
    case Gif => assert sig == Ascii("GIF8");
    case Webp => assert sig == Ascii("RIFF");
  }

  /** The ASCII tags of the signatures, as bytes. */
  lemma AsciiSignatures()
    ensures Ascii("PNG") == [0x50, 0x4E, 0x47]
    ensures Ascii("GIF8") == [0x47, 0x49, 0x46, 0x38]
    ensures Ascii("RIFF") == [0x52, 0x49, 0x46, 0x46]
    ensures Ascii("WEBP") == WebpFourcc
  {
    assert Ascii("PNG") == [0x50, 0x4E, 0x47];
    assert Ascii("GIF8") == [0x47, 0x49, 0x46, 0x38];
    assert Ascii("RIFF") == [0x52, 0x49, 0x46, 0x46];
    assert Ascii("WEBP") == WebpFourcc;
  }

  /** A file shorter than the declared type's signature never matches it. */
  lemma ShortFileFails(bytes: seq<Byte>, t: MimeType)
    requires |bytes| < |Signatures(t)[0]|
    ensures !TableMatch(bytes, t)
  {
    var sig := Signatures(t)[0];
    MismatchRefutes(bytes, 0, sig, |sig| - 1);
    assert forall i :: 0 <= i < |Signatures(t)| ==> Signatures(t)[i] == sig;
  }

  /** A RIFF container with another form type (WAVE here) is not WebP, and no other signature claims it either. */
  lemma RiffWaveIsNotWebp(bytes: seq<Byte>)
    requires Ascii("RIFF") <= bytes && MatchesAt(bytes, 8, Ascii("WAVE"))
    ensures !TableMatch(bytes, Webp)
    ensures FirstMatch(bytes, TableOrder) == None
  {
    assert Ascii("RIFF") == [0x52, 0x49, 0x46, 0x46];
    assert Ascii("WAVE") == [0x57, 0x41, 0x56, 0x45];
    MatchedByte(bytes, 8, Ascii("WAVE"), 1);
    assert !MatchesAt(bytes, 8, WebpFourcc) by {
      assert WebpFourcc[1] != bytes[8 + 1];
    }
    assert bytes[0] == 0x52;
    forall t ensures !TableMatch(bytes, t) {
      if TableMatch(bytes, t) {
        FirstByteDecides(bytes, t);
      }
    }
    FirstMatchSpec(bytes, TableOrder);
  }

  /** The first bytes of the four signatures differ pairwise, so no content passes two checks. */
  lemma SignaturesExclusive(bytes: seq<Byte>, t1: MimeType, t2: MimeType)
    requires TableMatch(bytes, t1) && TableMatch(bytes, t2)
    ensures t1 == t2
  {
    FirstByteDecides(bytes, t1);
    FirstByteDecides(bytes, t2);
  }

  /** What the ordered scan reports: a type whose check passes, or nothing exactly when no type of the order passes. */
  lemma {:induction false} FirstMatchSpec(bytes: seq<Byte>, order: seq<MimeType>)
    ensures FirstMatch(bytes, order).Some? ==> TableMatch(bytes, FirstMatch(bytes, order).value)
    ensures FirstMatch(bytes, order).None? <==> forall k :: 0 <= k < |order| ==> !TableMatch(bytes, order[k])
  {
    if order != [] {
      FirstMatchSpec(bytes, order[1..]);
      if !TableMatch(bytes, order[0]) {
        forall k | 0 <= k < |order| && TableMatch(bytes, order[k]) ensures FirstMatch(bytes, order).Some? {
          assert order[1..][k - 1] == order[k];
        }
      }
    }
  }

  /** The table covers every type, so detection reports a type exactly when that type's check passes. */
  lemma DetectIffMatch(bytes: seq<Byte>, t: MimeType)
    ensures FirstMatch(bytes, TableOrder) == Some(t) <==> TableMatch(bytes, t)
  {
    FirstMatchSpec(bytes, TableOrder);
    var d := FirstMatch(bytes, TableOrder);
    if TableMatch(bytes, t) {
      assert TableOrder[TableIndex(t)] == t;
      SignaturesExclusive(bytes, t, d.value);
    }
  }

  function TableIndex(t: MimeType): (k: nat)
    ensures k < |TableOrder| && TableOrder[k] == t
  {
    match t
    case Jpeg => 0
    case Png => 1
    case Gif => 2
    case Webp => 3
  }

  /** validateMagicBytes(bytes, declared) and detectActualType(bytes) === declared always agree. */
  lemma ValidateAgreesWithDetect(bytes: seq<Byte>, declared: string)
    ensures (Lookup(declared).Some? && TableMatch(bytes, Lookup(declared).value))
        <==> (FirstMatch(bytes, TableOrder).Some? && MimeName(FirstMatch(bytes, TableOrder).value) == declared)
  {
    var d := FirstMatch(bytes, TableOrder);
    FirstMatchSpec(bytes, TableOrder);
    if Lookup(declared).Some? {
      DetectIffMatch(bytes, Lookup(declared).value);
    }
    if d.Some? {
      DetectIffMatch(bytes, d.value);
      assert Lookup(MimeName(d.value)) == Some(d.value);
    }
  }

  // ----- The request handler -----

  /** The outcome of an awaited hosting call: its value, or an exception. */
  datatype Outcome<T> = Returned(value: T) | Threw

  /** The multipart fields the handler reads: the `file` part's bytes and the `type` string. */
  datatype Form = Form(file: Option<seq<Byte>>, declaredType: Option<string>)

  /**
   * One call of the function. `userFound` is what the auth exchange gave:
   * true for a user and no error. `form` is what parsing the multipart body gave.
   */
  datatype Request = Request(
    httpMethod: string,
    authorization: Option<string>,
    userFound: Outcome<bool>,
    form: Outcome<Form>)

  /** The JSON body; an absent optional field is left out of the JSON. */
  datatype Body = Body(valid: bool, error: Option<string>, detectedType: Option<string>)

  /** The status and body; a preflight response has no body. */
  datatype Response = Response(status: int, body: Option<Body>)

  function Fail(status: int, error: string): Response {
    Response(status, Some(Body(false, Some(error), None)))
  }

  /** `${x}` of a string that may be null. */
  function Shown(x: Option<string>): string {
    if x.Some? then x.value else "null"
  }

  /** `!authHeader`: missing or the empty string. */
  predicate Falsy(x: Option<string>) {
    x.None? || x.value == ""
  }

  /** The handler's chain of guards, from the preflight check to the success response. */
  function Handle(req: Request): (resp: Response)
    ensures resp.body.None? <==> req.httpMethod == "OPTIONS"
    ensures resp.status in {200, 400, 401, 500}
    ensures resp.body.Some? ==> (resp.body.value.valid <==> resp.status == 200)
    ensures resp.body.Some? ==> (resp.body.value.error.None? <==> resp.body.value.valid)
  {
    if req.httpMethod == "OPTIONS" then Response(200, None)
    else if Falsy(req.authorization) then Fail(401, "Unauthorized")
    else if req.userFound.Threw? then Fail(500, "Internal server error")
    else if !req.userFound.value then Fail(401, "Invalid authentication")
    else if req.form.Threw? then Fail(500, "Internal server error")
    else
      var form := req.form.value;
      if form.file.None? then Fail(400, "No file provided")
      else
        var bytes := form.file.value;
        if |bytes| > MaxFileSize then Fail(400, "File exceeds maximum size of 5MB")
        else if Falsy(form.declaredType) || form.declaredType.value !in AllowedMimeTypes then
          Fail(400, "Invalid file type: " + Shown(form.declaredType))
        else
          var declared := form.declaredType.value;
          var detected := FirstMatch(bytes, TableOrder);
          var shown := if detected.Some? then MimeName(detected.value) else "unknown";
          if !(Lookup(declared).Some? && TableMatch(bytes, Lookup(declared).value)) then
            Response(400, Some(Body(false,
              Some("File content does not match declared type. Detected: " + shown),
              if detected.Some? then Some(MimeName(detected.value)) else None)))
          else
            Response(200, Some(Body(true, None, Some(if detected.Some? then MimeName(detected.value) else declared))))
  }

  /** Every declared type the allow-list admits has a table entry, and no other string has one. */
  lemma AllowListIsTable(declared: string)
    ensures declared in AllowedMimeTypes <==> Lookup(declared).Some?
  {
  }

  /**
   * The file is accepted exactly when the request is authenticated, the file is
   * present, at most 5 MiB, declared as an allowed type, and its content carries
   * that type's published signature.
   */
  lemma AcceptedIff(req: Request)
    ensures Handle(req).status == 200 && Handle(req).body.Some? <==>
      && req.httpMethod != "OPTIONS"
      && !Falsy(req.authorization)
      && req.userFound == Returned(true)
      && req.form.Returned? && req.form.value.file.Some? && req.form.value.declaredType.Some?
      && |req.form.value.file.value| <= MaxFileSize
      && Lookup(req.form.value.declaredType.value).Some?
      && FormatSignature(req.form.value.file.value, Lookup(req.form.value.declaredType.value).value)
  {
    if req.form.Returned? && req.form.value.file.Some? && req.form.value.declaredType.Some? {
      var declared := req.form.value.declaredType.value;
      AllowListIsTable(declared);
      if Lookup(declared).Some? {
        TableMatchesFormats(req.form.value.file.value, Lookup(declared).value);
      }
    }
  }

  /** On success the reported type is the declared one: detection and the declared check agree. */
  lemma SuccessReportsDeclaredType(req: Request)
    requires Handle(req).status == 200 && Handle(req).body.Some?
    ensures Handle(req).body.value.detectedType == req.form.value.declaredType
  {
    ValidateAgreesWithDetect(req.form.value.file.value, req.form.value.declaredType.value);
  }

  /** A rejected content check names the detected type when there is one, and only then. */
  lemma MismatchReportsDetection(req: Request)
    requires req.httpMethod != "OPTIONS" && !Falsy(req.authorization) && req.userFound == Returned(true)
    requires req.form.Returned? && req.form.value.file.Some? && |req.form.value.file.value| <= MaxFileSize
    requires req.form.value.declaredType.Some? && req.form.value.declaredType.value in AllowedMimeTypes
    requires !TableMatch(req.form.value.file.value, Lookup(req.form.value.declaredType.value).value)
    ensures Handle(req).status == 400
    ensures Handle(req).body.value.detectedType.Some? <==> FirstMatch(req.form.value.file.value, TableOrder).Some?
    ensures Handle(req).body.value.detectedType != req.form.value.declaredType
  {
    var bytes := req.form.value.file.value;
    ValidateAgreesWithDetect(bytes, req.form.value.declaredType.value);
  }

  /** A file of more than 5 MiB is refused with 400 whatever its content, once authenticated. */
  lemma OversizeRefused(req: Request)
    requires req.httpMethod != "OPTIONS" && !Falsy(req.authorization) && req.userFound == Returned(true)
    requires req.form.Returned? && req.form.value.file.Some? && |req.form.value.file.value| > MaxFileSize
    ensures Handle(req) == Fail(400, "File exceeds maximum size of 5MB")
  {
  }

  /**
   * The guards run in order: a preflight is answered before anything else, a
   * missing header wins over everything after it, a failed exchange over the
   * form, a missing file over its size, and the size over the declared type.
   */
  lemma GuardOrder(req: Request)
    ensures req.httpMethod == "OPTIONS" ==> Handle(req) == Response(200, None)
    ensures req.httpMethod != "OPTIONS" && Falsy(req.authorization) ==> Handle(req) == Fail(401, "Unauthorized")
    ensures req.httpMethod != "OPTIONS" && !Falsy(req.authorization) && req.userFound == Returned(false)
      ==> Handle(req) == Fail(401, "Invalid authentication")
    ensures (req.httpMethod != "OPTIONS" && !Falsy(req.authorization) && req.userFound == Returned(true)
             && req.form.Returned? && req.form.value.file.None?) ==> Handle(req) == Fail(400, "No file provided")
    ensures (req.httpMethod != "OPTIONS" && !Falsy(req.authorization) && req.userFound == Returned(true)
             && req.form.Returned? && req.form.value.file.Some? && |req.form.value.file.value| <= MaxFileSize
             && (Falsy(req.form.value.declaredType) || req.form.value.declaredType.value !in AllowedMimeTypes))
      ==> Handle(req) == Fail(400, "Invalid file type: " + Shown(req.form.value.declaredType))
  {
  }

  /** A fault thrown by the auth exchange or by reading the form becomes a 500 "Internal server error". */
  lemma ThrownFaults(req: Request)
    requires req.httpMethod != "OPTIONS" && !Falsy(req.authorization)
    requires req.userFound.Threw? || (req.userFound == Returned(true) && req.form.Threw?)
    ensures Handle(req) == Fail(500, "Internal server error")
    ensures !Handle(req).body.value.valid
  {
  }

  /** A PNG declared as image/jpeg is refused and reported as image/png. */
  lemma PngDeclaredAsJpeg(req: Request)
    requires req.httpMethod != "OPTIONS" && !Falsy(req.authorization) && req.userFound == Returned(true)
    requires req.form.Returned? && req.form.value.file.Some? && |req.form.value.file.value| <= MaxFileSize
    requires [0x89, 0x50, 0x4E, 0x47] <= req.form.value.file.value
    requires req.form.value.declaredType == Some("image/jpeg")
    ensures Handle(req).status == 400
    ensures Handle(req).body.value.detectedType == Some("image/png")
  {
    var bytes := req.form.value.file.value;
    MatchesAtStart(bytes, [0x89, 0x50, 0x4E, 0x47]);
    assert TableMatch(bytes, Png) by {
      assert MatchesAt(bytes, 0, Signatures(Png)[0]);
    }
    DetectIffMatch(bytes, Png);
    if TableMatch(bytes, Jpeg) {
      SignaturesExclusive(bytes, Png, Jpeg);
    }
  }
}
