/** The archive intake of `api/utils/upload.ts`: the MIME filter handed to
    multer, the validator `validateZipFile` and the extractor
    `extractZipContents`.

    An archive is what JSZip's `loadAsync` yields: `None` when the bytes do not
    parse as a ZIP file, otherwise its entries in the order `Object.keys` lists
    them, each with its name, its directory flag and its decompressed bytes. */
module Upload {
  import opened Strings
  import Env

  newtype byte = x: int | 0 <= x < 256

  datatype Entry = Entry(name: string, isDir: bool, content: seq<byte>)

  /** `{ valid, error?, files? }`; an absent field is `None`. */
  datatype ValidationResult = ValidationResult(valid: bool, error: Option<string>, files: Option<seq<string>>)

  const InvalidFormat: string := "Invalid ZIP file format"
  const SuspiciousPath: string := "Suspicious file path detected"
  const MissingIndex: string :=
    "ZIP file must contain at least one index file (index.html, index.htm, index.js, or package.json)"
  const FileTooLarge: string := "Individual file too large"
  const TotalTooLarge: string := "Total uncompressed size too large"

  /** 50 MiB per entry and 200 MiB in all, in decompressed bytes. */
  const MaxEntrySize: nat := 50 * 1024 * 1024
  const MaxTotalSize: nat := 200 * 1024 * 1024

  function Reject(error: string): ValidationResult
  {
    ValidationResult(false, Some(error), None)
  }

  function Accept(files: seq<string>): ValidationResult
  {
    ValidationResult(true, None, Some(files))
  }

  // ---------------------------------------------------------------------------
  // The multer file filter
  // ---------------------------------------------------------------------------

  /** What the filter passes to multer's callback: keep the file, or an error. */
  datatype FilterDecision = Keep | FilterError(message: string)

  /** The `fileFilter` given to multer: keep a file whose declared MIME type is
      on the configured allow-list. */
  function FileFilter(env: Env.Env, mimetype: string): (d: FilterDecision)
    ensures d == Keep || d == FilterError(Env.InvalidFileType)
    ensures d == Keep <==> Env.MimeAllowed(env, mimetype)
    ensures Env.IsDefault(env) ==>
      (d == Keep <==> mimetype == Env.ZipMime || mimetype == Env.ZipCompressedMime)
    ensures ',' in mimetype ==> d != Keep
  {
    var d := if Env.MimeAllowed(env, mimetype) then Keep else FilterError(Env.InvalidFileType);
    if Env.IsDefault(env) then Env.DefaultMimesAllowed(env, mimetype); d else d
  }

  // ---------------------------------------------------------------------------
  // The checks of validateZipFile
  // ---------------------------------------------------------------------------

  /** One of the three suspicious patterns matches: `../` anywhere, a leading
      `/`, or a NUL character anywhere. */
  predicate IsSuspicious(name: string)
  {
    Contains(name, "../") || (|name| > 0 && name[0] == '/') || '\0' in name
  }

  /** The lower-cased name contains one of the four entry-point names. */
  predicate NamesIndexFile(name: string)
  {
    var lower := Lower(name);
    Contains(lower, "index.html") || Contains(lower, "index.htm") ||
    Contains(lower, "index.js") || Contains(lower, "package.json")
  }

  /** `files.some(...)`: some name, directories included, is an entry point. */
  predicate HasIndexFile(names: seq<string>)
  {
    exists i :: 0 <= i < |names| && NamesIndexFile(names[i])
  }

  predicate Oversized(e: Entry)
  {
    !e.isDir && |e.content| > MaxEntrySize
  }

  function EntrySize(e: Entry): nat
  {
    if e.isDir then 0 else |e.content|
  }

  /** The decompressed size of all non-directory entries together. */
  function TotalSize(entries: seq<Entry>): nat
  {
    if entries == [] then 0
    else TotalSize(entries[..|entries| - 1]) + EntrySize(entries[|entries| - 1])
  }

  /** `Object.keys(zipContent.files)`: the entry names, in order. */
  function Names(entries: seq<Entry>): (names: seq<string>)
    ensures |names| == |entries|
    ensures forall i :: 0 <= i < |entries| ==> names[i] == entries[i].name
  {
    seq(|entries|, i requires 0 <= i < |entries| => entries[i].name)
  }

  /** Some entry name matches a suspicious pattern. */
  predicate AnySuspicious(entries: seq<Entry>)
  {
    exists i :: 0 <= i < |entries| && IsSuspicious(entries[i].name)
  }

  /** Some non-directory entry is over 50 MiB. */
  predicate AnyOversized(entries: seq<Entry>)
  {
    exists i :: 0 <= i < |entries| && Oversized(entries[i])
  }

  /** The verdict of `validateZipFile`, stated over the whole entry list at
      once: the first failing check, in the source's order, decides. */
  function Validation(archive: Option<seq<Entry>>): ValidationResult
  {
    match archive
    case None => Reject(InvalidFormat)
    case Some(entries) =>
      if AnySuspicious(entries) then Reject(SuspiciousPath)
      else if !HasIndexFile(Names(entries)) then Reject(MissingIndex)
      else if AnyOversized(entries) then Reject(FileTooLarge)
      else if TotalSize(entries) > MaxTotalSize then Reject(TotalTooLarge)
      else Accept(Names(entries))
  }

  /** `validateZipFile`: a pass over the names for suspicious patterns, the
      entry-point test, then a pass over the entries that adds up the sizes
      and stops at the first oversized one, and last the total-size test. */
  method ValidateZipFile(archive: Option<seq<Entry>>) returns (r: ValidationResult)
    ensures r == Validation(archive)
  {
    if archive.None? {
      return Reject(InvalidFormat);
    }
    var entries := archive.value;
    var files := Names(entries);
    for i := 0 to |files|
      invariant forall j :: 0 <= j < i ==> !IsSuspicious(files[j])
    {
      if IsSuspicious(files[i]) {
        return Reject(SuspiciousPath);
      }
    }
    if !HasIndexFile(files) {
      return Reject(MissingIndex);
    }
    var totalSize := 0;
    for i := 0 to |entries|
      invariant totalSize == TotalSize(entries[..i])
      invariant forall j :: 0 <= j < i ==> !Oversized(entries[j])
    {
      var file := entries[i];
      assert entries[..i + 1][..i] == entries[..i];
      if !file.isDir {
        var length := |file.content|;
        totalSize := totalSize + length;
        if length > MaxEntrySize {
          return Reject(FileTooLarge);
        }
      }
    }
    assert entries[..|entries|] == entries;
    if totalSize > MaxTotalSize {
      return Reject(TotalTooLarge);
    }
    return Accept(files);
  }

  // ---------------------------------------------------------------------------
  // Properties of the validator
  // ---------------------------------------------------------------------------

  /** Each verdict, characterised: an error is reported exactly when every
      earlier check passed and its own check failed; acceptance carries the
      full ordered list of names and rejections carry none. */
  lemma ValidationOutcomes(archive: Option<seq<Entry>>)
    ensures var r := Validation(archive);
      && (r.error == Some(InvalidFormat) <==> archive.None?)
      && (r.error == Some(SuspiciousPath) <==> archive.Some? && AnySuspicious(archive.value))
      && (r.error == Some(MissingIndex) <==>
            archive.Some? && !AnySuspicious(archive.value) && !HasIndexFile(Names(archive.value)))
      && (r.error == Some(FileTooLarge) <==>
            archive.Some? && !AnySuspicious(archive.value) && HasIndexFile(Names(archive.value))
            && AnyOversized(archive.value))
      && (r.error == Some(TotalTooLarge) <==>
            archive.Some? && !AnySuspicious(archive.value) && HasIndexFile(Names(archive.value))
            && !AnyOversized(archive.value) && TotalSize(archive.value) > MaxTotalSize)
      && (r.valid <==> r.error.None?)
      && (r.valid <==> r.files.Some?)
      && (r.valid ==> r.files == Some(Names(archive.value)))
  {
  }

  /** A suspicious name anywhere in the archive decides the verdict, whatever
      the other entries are. */
  lemma SuspiciousAnywhereRejects(entries: seq<Entry>, i: int)
    requires 0 <= i < |entries| && IsSuspicious(entries[i].name)
    ensures Validation(Some(entries)) == Reject(SuspiciousPath)
  {
  }

  /** `index.htm` is a prefix of `index.html`, so the first of the four
      entry-point names never decides anything on its own. */
  lemma IndexHtmlSubsumed(name: string)
    ensures NamesIndexFile(name) <==>
      var lower := Lower(name);
      Contains(lower, "index.htm") || Contains(lower, "index.js") || Contains(lower, "package.json")
  {
    var lower := Lower(name);
    if Contains(lower, "index.html") {
      var i :| 0 <= i <= |lower| - |"index.html"| && IsPrefix("index.html", lower[i..]);
      assert lower[i..][..9] == "index.htm";
      assert IsPrefix("index.htm", lower[i..]);
    }
  }

  /** An upper-case entry point in any directory is found, since names are
      lower-cased before the test. */
  lemma UpperCaseIndexFound(dir: string)
    ensures NamesIndexFile(dir + "INDEX.HTML")
  {
    var name := dir + "INDEX.HTML";
    var lower := Lower(name);
    var k := |dir|;
    assert name[k..] == "INDEX.HTML";
    var tail := lower[k..];
    assert |tail| == 10;
    assert tail[0] == 'i' && tail[1] == 'n' && tail[2] == 'd' && tail[3] == 'e' && tail[4] == 'x';
    assert tail[5] == '.' && tail[6] == 'h' && tail[7] == 't' && tail[8] == 'm' && tail[9] == 'l';
    assert tail == "index.html";
    ContainsAt(lower, "index.html", k);
  }

  /** Directory entries add nothing to the total, whatever JSZip reports as
      their content. */
  lemma {:induction false} TotalSizeIgnoresDirectories(entries: seq<Entry>, i: int, content: seq<byte>)
    requires 0 <= i < |entries| && entries[i].isDir
    ensures TotalSize(entries[i := entries[i].(content := content)]) == TotalSize(entries)
  {
    var changed := entries[i := entries[i].(content := content)];
    var n := |entries|;
    if i < n - 1 {
      assert changed[..n - 1] == entries[..n - 1][i := entries[i].(content := content)];
      TotalSizeIgnoresDirectories(entries[..n - 1], i, content);
    } else {
      assert changed[..n - 1] == entries[..n - 1];
    }
  }

  /** Once the archive passed the earlier checks and no entry is oversized,
      the total limit decides: the archive is accepted if and only if the
      non-directory sizes add up to at most 200 MiB. */
  lemma TotalLimitDecides(entries: seq<Entry>)
    requires !AnySuspicious(entries) && HasIndexFile(Names(entries)) && !AnyOversized(entries)
    ensures Validation(Some(entries)).valid <==> TotalSize(entries) <= MaxTotalSize
    ensures !Validation(Some(entries)).valid ==> Validation(Some(entries)) == Reject(TotalTooLarge)
  {
  }

  /** An accepted archive has no entry over 50 MiB and at most 200 MiB in all. */
  lemma {:induction false} AcceptedIsBounded(entries: seq<Entry>)
    requires Validation(Some(entries)).valid
    ensures forall i :: 0 <= i < |entries| ==> EntrySize(entries[i]) <= MaxEntrySize
    ensures TotalSize(entries) <= MaxTotalSize
  {
    forall i | 0 <= i < |entries|
      ensures EntrySize(entries[i]) <= MaxEntrySize
    {
      assert !Oversized(entries[i]);
    }
  }

  /** `index.html` is an entry point. */
  lemma IndexHtmlIsEntryPoint()
    ensures NamesIndexFile("index.html")
  {
    UpperCaseIndexFound("");
    assert "" + "INDEX.HTML" == "INDEX.HTML";
    assert Lower("INDEX.HTML") == Lower("index.html");
  }

  /** `index.html` is not a suspicious name. */
  lemma IndexHtmlIsInnocent()
    ensures !IsSuspicious("index.html")
  {
    ContainsTraversal("index.html");
  }

  /** A single entry point of exactly 50 MiB is accepted: the per-entry
      comparison is strict, and 50 MiB is within the total as well. */
  lemma ExactlyFiftyMiBAccepted(name: string)
    requires NamesIndexFile(name) && !IsSuspicious(name)
    ensures Validation(Some([Entry(name, false, seq(MaxEntrySize, _ => 0 as byte))]))
            == Accept([name])
  {
    var entries := [Entry(name, false, seq(MaxEntrySize, _ => 0 as byte))];
    assert NamesIndexFile(Names(entries)[0]);
    assert entries[..0] == [];
    assert TotalSize(entries) == MaxEntrySize;
    assert !AnySuspicious(entries) && !AnyOversized(entries);
    assert Names(entries) == [name];
  }

  /** A name shorter than `index.js`, the shortest of the four entry-point
      names, can contain none of them. */
  lemma ShortNameIsNoEntryPoint(name: string)
    requires |name| < |"index.js"|
    ensures !NamesIndexFile(name)
  {
    var lower := Lower(name);
    assert |lower| < 8;
    assert !Contains(lower, "index.html") && !Contains(lower, "index.htm");
    assert !Contains(lower, "index.js") && !Contains(lower, "package.json");
  }

  /** An archive holding only a short innocent name, such as `a.txt`, is
      rejected for the missing index file. */
  lemma NoIndexScenario(name: string)
    requires |name| < |"index.js"| && !IsSuspicious(name)
    ensures Validation(Some([Entry(name, false, [])])) == Reject(MissingIndex)
  {
    ShortNameIsNoEntryPoint(name);
    var entries := [Entry(name, false, [])];
    assert Names(entries) == [name];
    assert !AnySuspicious(entries);
    assert !HasIndexFile(Names(entries));
  }

  /** `../../etc/passwd` is rejected as suspicious. */
  lemma TraversalScenario()
    ensures Validation(Some([Entry("../../etc/passwd", false, [])])) == Reject(SuspiciousPath)
  {
    ContainsAt("../../etc/passwd", "../", 0);
  }

  /** An entry point beside a 60 MiB file is rejected as too large. */
  lemma HugeEntryScenario(index: string, other: string)
    requires NamesIndexFile(index) && !IsSuspicious(index) && !IsSuspicious(other)
    ensures Validation(Some([Entry(index, false, []),
                             Entry(other, false, seq(60 * 1024 * 1024, _ => 0 as byte))]))
            == Reject(FileTooLarge)
  {
    var entries := [Entry(index, false, []),
                    Entry(other, false, seq(60 * 1024 * 1024, _ => 0 as byte))];
    assert NamesIndexFile(Names(entries)[0]);
    assert Oversized(entries[1]);
  }

  // ---------------------------------------------------------------------------
  // The filename sanitiser and extractZipContents
  // ---------------------------------------------------------------------------

  /** The characters `[a-zA-Z0-9._\-\/]` a sanitised name may hold. */
  predicate SafeChar(c: char)
  {
    IsLowerLetter(c) || IsUpperLetter(c) || IsDigit(c) || c == '.' || c == '_' || c == '-' || c == '/'
  }

  /** `filename.replace(/[^a-zA-Z0-9._\-\/]/g, '_')`. */
  function Sanitize(name: string): (r: string)
    ensures |r| == |name|
    ensures forall i :: 0 <= i < |r| ==> SafeChar(r[i])
    ensures forall i :: 0 <= i < |name| && SafeChar(name[i]) ==> r[i] == name[i]
    ensures forall i :: 0 <= i < |name| && !SafeChar(name[i]) ==> r[i] == '_'
  {
    if name == [] then []
    else [if SafeChar(name[0]) then name[0] else '_'] + Sanitize(name[1..])
  }

  /** Sanitising twice is sanitising once. */
  lemma SanitizeIdempotent(name: string)
    ensures Sanitize(Sanitize(name)) == Sanitize(name)
  {
    var once := Sanitize(name);
    assert forall i :: 0 <= i < |once| ==> Sanitize(once)[i] == once[i];
  }

  /** A name made of safe characters only is left as it is. */
  lemma SanitizeKeepsSafeNames(name: string)
    requires forall i :: 0 <= i < |name| ==> SafeChar(name[i])
    ensures Sanitize(name) == name
  {
    assert forall i :: 0 <= i < |name| ==> Sanitize(name)[i] == name[i];
  }

  /** `../` starts at position `i` of `s`. */
  predicate TraversalAt(s: string, i: int)
  {
    0 <= i <= |s| - 3 && s[i] == '.' && s[i + 1] == '.' && s[i + 2] == '/'
  }

  lemma ContainsTraversal(s: string)
    ensures Contains(s, "../") <==> exists i :: TraversalAt(s, i)
  {
    if Contains(s, "../") {
      var i :| 0 <= i <= |s| - 3 && IsPrefix("../", s[i..]);
      assert s[i..][..3] == "../";
      assert TraversalAt(s, i);
    }
    if exists i :: TraversalAt(s, i) {
      var i :| TraversalAt(s, i);
      assert s[i..i + 3] == "../";
      ContainsAt(s, "../", i);
    }
  }

  /** `.` and `/` are safe, so sanitising neither removes a `../` nor makes
      one: the sanitised name contains `../` exactly when the name does. */
  lemma SanitizeTraversal(name: string)
    ensures Contains(Sanitize(name), "../") <==> Contains(name, "../")
  {
    var r := Sanitize(name);
    ContainsTraversal(name);
    ContainsTraversal(r);
    forall i ensures TraversalAt(r, i) <==> TraversalAt(name, i) {
      if TraversalAt(r, i) {
        assert SafeChar(name[i]) && SafeChar(name[i + 1]) && SafeChar(name[i + 2]);
      }
    }
  }

  /** A name that passes the suspicious-path check still passes it after
      sanitising: a NUL becomes `_` and a leading `/` can only come from a
      leading `/`. */
  lemma SanitizeKeepsInnocence(name: string)
    requires !IsSuspicious(name)
    ensures !IsSuspicious(Sanitize(name))
  {
    SanitizeTraversal(name);
    var r := Sanitize(name);
    assert !SafeChar('\0');
    assert forall i :: 0 <= i < |r| ==> r[i] != '\0';
  }

  /** The one key under which an assignment to a plain object `{}` creates no
      own property: `obj["__proto__"] = v` runs the inherited prototype setter
      instead, so `Object.keys` and `Object.entries` never list it. */
  const ProtoKey: string := "__proto__"

  /** `obj[key] = value` on a plain object, seen through its own keys. */
  function SetProperty(obj: map<string, seq<byte>>, key: string, value: seq<byte>): (r: map<string, seq<byte>>)
    ensures key != ProtoKey ==> r == obj[key := value]
    ensures key == ProtoKey ==> r == obj
  {
    if key == ProtoKey then obj else obj[key := value]
  }

  /** The own keys and values of the object `extractZipContents` builds:
      directories are skipped and every other entry is stored under its
      sanitised name, a later entry replacing an earlier one that sanitises to
      the same name. */
  function Extracted(entries: seq<Entry>): map<string, seq<byte>>
  {
    if entries == [] then map[]
    else
      var previous := Extracted(entries[..|entries| - 1]);
      var file := entries[|entries| - 1];
      if file.isDir then previous else SetProperty(previous, Sanitize(file.name), file.content)
  }

  /** `extractZipContents`; `None` is the exception `loadAsync` throws on bytes
      that do not parse (the source does not catch it). */
  method ExtractZipContents(archive: Option<seq<Entry>>) returns (r: Option<map<string, seq<byte>>>)
    ensures r.None? <==> archive.None?
    ensures archive.Some? ==> r == Some(Extracted(archive.value))
  {
    if archive.None? {
      return None;
    }
    var entries := archive.value;
    var extractedFiles: map<string, seq<byte>> := map[];
    for i := 0 to |entries|
      invariant extractedFiles == Extracted(entries[..i])
    {
      var file := entries[i];
      assert entries[..i + 1][..i] == entries[..i];
      if !file.isDir {
        var sanitizedFilename := Sanitize(file.name);
        extractedFiles := SetProperty(extractedFiles, sanitizedFilename, file.content);
      }
    }
    assert entries[..|entries|] == entries;
    return Some(extractedFiles);
  }

  /** The keys of the extraction are exactly the sanitised names of the
      non-directory entries, `__proto__` excepted. */
  lemma {:induction false} ExtractedKeys(entries: seq<Entry>, key: string)
    ensures key in Extracted(entries) <==>
      key != ProtoKey && exists i :: 0 <= i < |entries| && !entries[i].isDir && Sanitize(entries[i].name) == key
  {
    if entries != [] {
      var n := |entries|;
      var init := entries[..n - 1];
      ExtractedKeys(init, key);
      if key in Extracted(init) {
        var i :| 0 <= i < |init| && !init[i].isDir && Sanitize(init[i].name) == key;
        assert entries[i] == init[i];
      }
      if key != ProtoKey && exists i :: 0 <= i < n && !entries[i].isDir && Sanitize(entries[i].name) == key {
        var i :| 0 <= i < n && !entries[i].isDir && Sanitize(entries[i].name) == key;
        if i < n - 1 {
          assert init[i] == entries[i];
        }
      }
    }
  }

  /** Last write wins: a non-directory entry that no later non-directory entry
      collides with is what its sanitised name maps to, unless that name is
      `__proto__`, which is never an own key. */
  lemma {:induction false} ExtractedLastWins(entries: seq<Entry>, i: int)
    requires 0 <= i < |entries| && !entries[i].isDir
    requires forall j :: i < j < |entries| && !entries[j].isDir ==>
      Sanitize(entries[j].name) != Sanitize(entries[i].name)
    ensures Sanitize(entries[i].name) == ProtoKey ==> ProtoKey !in Extracted(entries)
    ensures Sanitize(entries[i].name) != ProtoKey ==>
      && Sanitize(entries[i].name) in Extracted(entries)
      && Extracted(entries)[Sanitize(entries[i].name)] == entries[i].content
  {
    ExtractedKeys(entries, ProtoKey);
    var n := |entries|;
    if i < n - 1 {
      var init := entries[..n - 1];
      assert init[i] == entries[i];
      forall j | i < j < |init| && !init[j].isDir
        ensures Sanitize(init[j].name) != Sanitize(init[i].name)
      {
        assert init[j] == entries[j];
      }
      ExtractedLastWins(init, i);
    }
  }

  /** Every key of the extraction is made of safe characters only, and, when
      the archive was accepted, also passes the suspicious-path check. */
  lemma ExtractedKeysSafe(entries: seq<Entry>, key: string)
    requires key in Extracted(entries)
    ensures forall c :: c in key ==> SafeChar(c)
    ensures Validation(Some(entries)).valid ==> !IsSuspicious(key)
  {
    ExtractedKeys(entries, key);
    var i :| 0 <= i < |entries| && !entries[i].isDir && Sanitize(entries[i].name) == key;
    if Validation(Some(entries)).valid {
      SanitizeKeepsInnocence(entries[i].name);
    }
  }
}
