/** The two request guards of `api/utils/security.ts`, `validateFileUpload`
    and `validateCSRFToken`. Each is Express middleware that either calls
    `next()` or writes an error status with a JSON `{ error }` body; the model
    returns that decision as a `Verdict`. */
module Security {
  import opened Strings
  import Env

  datatype Verdict = Next | Reject(status: nat, error: string)

  /** The fields of `req.file` the gate reads; `bufferLength` is
      `req.file.buffer?.length`. */
  datatype UploadedFile = UploadedFile(size: nat, mimetype: string, bufferLength: Option<nat>)

  const NoFileUploaded: string := "No file uploaded"
  const FileTooLarge: string := "File too large. Maximum size is 20MB."
  const SuspiciousFile: string := "Suspicious file detected. Upload rejected."
  const InvalidCsrfToken: string := "Invalid CSRF token"

  // ---------------------------------------------------------------------------
  // validateFileUpload
  // ---------------------------------------------------------------------------

  /** `req.file.size > maxSize`, where a NaN ceiling (`None`) makes every
      comparison false. */
  predicate ExceedsMaxSize(size: nat, maxSize: Option<int>)
  {
    match maxSize
    case None => false
    case Some(limit) => size > limit
  }

  /** `size / (buffer?.length || size) > 100`: the divisor is the buffer length
      when that is a positive number and the size otherwise; `0 / 0` is NaN,
      and NaN compares false. The ratio can only exceed 100 when a non-empty
      buffer is at least a hundred times smaller than the declared size. */
  function CompressionRatioTooHigh(size: nat, bufferLength: Option<nat>): (r: bool)
    ensures r <==> bufferLength.Some? && bufferLength.value > 0 && size > 100 * bufferLength.value
  {
    var divisor := if bufferLength.Some? && bufferLength.value > 0 then bufferLength.value else size;
    if divisor == 0 then false
    else
      RatioAboveHundred(size, divisor);
      (size as real) / (divisor as real) > 100.0
  }

  /** For a positive divisor, the quotient exceeds 100 exactly when the
      dividend exceeds a hundred times the divisor. */
  lemma RatioAboveHundred(size: nat, divisor: nat)
    requires divisor > 0
    ensures (size as real) / (divisor as real) > 100.0 <==> size > 100 * divisor
  {
    var s, d := size as real, divisor as real;
    var q := s / d;
    assert q * d == s;
    var e := q - 100.0;
    assert s == 100.0 * d + e * d;
    if e > 0.0 {
      assert e * d > 0.0;
    } else {
      assert (-e) * d >= 0.0;
    }
  }

  /** `validateFileUpload`: no file, then the size ceiling, then the MIME
      allow-list, then the compression ratio; the first failing check answers. */
  function ValidateFileUpload(env: Env.Env, file: Option<UploadedFile>): (v: Verdict)
    ensures file.None? ==> v == Reject(400, NoFileUploaded)
    ensures file.Some? && ExceedsMaxSize(file.value.size, Env.MaxFileSize(env)) ==>
      v == Reject(413, FileTooLarge)
    ensures file.Some? && !ExceedsMaxSize(file.value.size, Env.MaxFileSize(env))
            && !Env.MimeAllowed(env, file.value.mimetype) ==>
      v == Reject(415, Env.InvalidFileType)
    ensures file.Some? && !ExceedsMaxSize(file.value.size, Env.MaxFileSize(env))
            && Env.MimeAllowed(env, file.value.mimetype)
            && CompressionRatioTooHigh(file.value.size, file.value.bufferLength) ==>
      v == Reject(400, SuspiciousFile)
    ensures v == Next <==>
      && file.Some?
      && !ExceedsMaxSize(file.value.size, Env.MaxFileSize(env))
      && Env.MimeAllowed(env, file.value.mimetype)
      && !(file.value.bufferLength.Some? && file.value.bufferLength.value > 0
           && file.value.size > 100 * file.value.bufferLength.value)
    ensures v.Reject? ==> v.status in {400, 413, 415}
  {
    match file
    case None => Reject(400, NoFileUploaded)
    case Some(f) =>
      if ExceedsMaxSize(f.size, Env.MaxFileSize(env)) then Reject(413, FileTooLarge)
      else if !Env.MimeAllowed(env, f.mimetype) then Reject(415, Env.InvalidFileType)
      else if CompressionRatioTooHigh(f.size, f.bufferLength) then Reject(400, SuspiciousFile)
      else Next
  }

  /** With neither setting given, a file reaches `next()` exactly when it is
      at most 20971520 bytes, is declared as one of the two ZIP types, and has
      no non-empty buffer more than a hundred times smaller than its size. */
  lemma DefaultUploadGate(env: Env.Env, f: UploadedFile)
    requires Env.IsDefault(env)
    ensures ValidateFileUpload(env, Some(f)) == Next <==>
      && f.size <= 20971520
      && (f.mimetype == Env.ZipMime || f.mimetype == Env.ZipCompressedMime)
      && !(f.bufferLength.Some? && f.bufferLength.value > 0 && f.size > 100 * f.bufferLength.value)
    ensures f.size == 20971520 && f.mimetype == Env.ZipMime && f.bufferLength.None? ==>
      ValidateFileUpload(env, Some(f)) == Next
  {
    Env.DefaultMimesAllowed(env, f.mimetype);
  }

  /** A `MAX_FILE_SIZE` that `parseInt` reads as NaN switches the size check
      off: no size is rejected with 413 then. */
  lemma UnparsableCeilingAdmitsAnySize(env: Env.Env, f: UploadedFile)
    requires Env.MaxFileSize(env).None?
    ensures ValidateFileUpload(env, Some(f)) != Reject(413, FileTooLarge)
  {
  }

  // ---------------------------------------------------------------------------
  // validateCSRFToken
  // ---------------------------------------------------------------------------

  /** GET, HEAD and OPTIONS, compared exactly. */
  predicate IsSafeMethod(httpMethod: string)
  {
    httpMethod == "GET" || httpMethod == "HEAD" || httpMethod == "OPTIONS"
  }

  /** JavaScript truthiness of an optional string: present and not empty. */
  predicate Truthy(s: Option<string>)
  {
    s.Some? && s.value != ""
  }

  /** `validateCSRFToken`; `headerToken` is the `x-csrf-token` header and
      `sessionToken` is `req.session?.csrfToken`. */
  function ValidateCsrfToken(httpMethod: string, headerToken: Option<string>, sessionToken: Option<string>)
    : (v: Verdict)
    ensures IsSafeMethod(httpMethod) ==> v == Next
    ensures !IsSafeMethod(httpMethod) ==>
      (v == Next <==> exists t :: t != "" && headerToken == Some(t) && sessionToken == Some(t))
    ensures v == Next || v == Reject(403, InvalidCsrfToken)
  {
    if IsSafeMethod(httpMethod) then Next
    else if !Truthy(headerToken) || !Truthy(sessionToken) || headerToken.value != sessionToken.value then
      Reject(403, InvalidCsrfToken)
    else Next
  }

  /** Method names are compared case-sensitively: a lower-case `get` is not
      exempt and needs matching tokens. */
  lemma LowerCaseGetNeedsToken()
    ensures ValidateCsrfToken("get", None, None) == Reject(403, InvalidCsrfToken)
  {
  }
}
