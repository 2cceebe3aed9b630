/** The two environment settings the upload path reads, `MAX_FILE_SIZE` and
    `ALLOWED_MIME_TYPES`, with JavaScript's `value || fallback` rule: a variable
    that is unset or set to the empty string gives the fallback. */
module Env {
  import opened Strings

  datatype Env = Env(maxFileSize: Option<string>, allowedMimeTypes: Option<string>)

  const DefaultMaxFileSize: string := "20971520"
  const DefaultAllowedMimeTypes: string := "application/zip,application/x-zip-compressed"
  const ZipMime: string := "application/zip"
  const ZipCompressedMime: string := "application/x-zip-compressed"

  /** The message both the multer filter and the upload gate give for a type
      that is not on the list. */
  const InvalidFileType: string := "Invalid file type. Only ZIP files are allowed."

  /** `value || fallback`. */
  function OrDefault(value: Option<string>, fallback: string): string
  {
    if value.Some? && value.value != "" then value.value else fallback
  }

  /** True when neither setting is given, so both fallbacks apply. */
  predicate IsDefault(env: Env)
  {
    OrDefault(env.maxFileSize, DefaultMaxFileSize) == DefaultMaxFileSize &&
    OrDefault(env.allowedMimeTypes, DefaultAllowedMimeTypes) == DefaultAllowedMimeTypes
  }

  /** `allowedMimes`: the comma-split allow-list. */
  function AllowedMimes(env: Env): (mimes: seq<string>)
    ensures |mimes| >= 1
    ensures forall k :: 0 <= k < |mimes| ==> ',' !in mimes[k]
    ensures Join(mimes, ',') == OrDefault(env.allowedMimeTypes, DefaultAllowedMimeTypes)
  {
    var list := OrDefault(env.allowedMimeTypes, DefaultAllowedMimeTypes);
    JoinSplit(list, ',');
    Split(list, ',')
  }

  /** `allowedMimes.includes(mime)`: exact equality with one item, no
      trimming, so a type holding a comma is never allowed. */
  function MimeAllowed(env: Env, mime: string): (allowed: bool)
    ensures allowed <==> exists k :: 0 <= k < |AllowedMimes(env)| && AllowedMimes(env)[k] == mime
    ensures allowed ==> ',' !in mime
  {
    mime in AllowedMimes(env)
  }

  /** `parseInt(process.env.MAX_FILE_SIZE || '20971520')`; `None` is NaN. An
      unset or empty variable gives 20971520 bytes. */
  function MaxFileSize(env: Env): (limit: Option<int>)
    ensures OrDefault(env.maxFileSize, DefaultMaxFileSize) == DefaultMaxFileSize ==> limit == Some(20971520)
  {
    var limit := ParseInt(OrDefault(env.maxFileSize, DefaultMaxFileSize));
    if OrDefault(env.maxFileSize, DefaultMaxFileSize) == DefaultMaxFileSize then
      DefaultCeilingParses();
      limit
    else limit
  }

  /** With the fallback list, exactly the two ZIP MIME types are allowed. */
  lemma DefaultMimesAllowed(env: Env, mime: string)
    requires OrDefault(env.allowedMimeTypes, DefaultAllowedMimeTypes) == DefaultAllowedMimeTypes
    ensures AllowedMimes(env) == [ZipMime, ZipCompressedMime]
    ensures MimeAllowed(env, mime) <==> mime == ZipMime || mime == ZipCompressedMime
  {
    var pieces := [ZipMime, ZipCompressedMime];
    assert Join(pieces, ',') == DefaultAllowedMimeTypes;
    SplitJoin(pieces, ',');
    assert AllowedMimes(env) == pieces;
    assert MimeAllowed(env, mime) == (mime in pieces);
  }

  /** The fallback text parses to 20971520, which is 20 MiB. */
  lemma DefaultCeilingParses()
    ensures ParseInt(DefaultMaxFileSize) == Some(20971520)
    ensures 20971520 == 20 * 1024 * 1024
  {
    assert NatToString(2) == "2";
    assert NatToString(20) == "20";
    assert NatToString(209) == "209";
    assert NatToString(2097) == "2097";
    assert NatToString(20971) == "20971";
    assert NatToString(209715) == "209715";
    assert NatToString(2097152) == "2097152";
    assert NatToString(20971520) == DefaultMaxFileSize;
    ParseIntOfNatToString(20971520);
  }

  /** A setting with a decimal number in front, such as `10485760` or
      `10485760 bytes`, gives that number of bytes. */
  lemma MaxFileSizeOfNumber(env: Env, n: nat, rest: string)
    requires env.maxFileSize == Some(NatToString(n) + rest)
    requires rest == [] || !IsDigit(rest[0])
    ensures MaxFileSize(env) == Some(n)
  {
    var text := NatToString(n) + rest;
    assert text != "";
    assert "" + "" + NatToString(n) + rest == text;
    ParseIntOfText("", "", NatToString(n), rest);
    DigitsValueOfNatToString(n);
  }
}
