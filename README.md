# zip2vercel: verified model of the upload, naming and wizard logic

The system takes a ZIP archive of a static web site, pushes it to a new GitHub
repository and deploys it on Vercel, driven by a four-step wizard in the
browser. Most of it is glue around Express, React and two REST APIs. This
project models the four pieces of deterministic decision logic underneath
that glue, and proves what they promise.

- **Archive intake** (`api/utils/upload.ts`, module `Upload` in `upload.dfy`).
  - The multer file filter accepts a declared MIME type only if it is on the allow-list.
  - `validateZipFile` runs its checks in a fixed order and the first failure answers:
    - the archive does not parse;
    - a suspicious entry name (`../` anywhere, a leading `/`, a NUL character);
    - no entry-point name (`index.html`, `index.htm`, `index.js`, `package.json`, matched case-insensitively as substrings);
    - an entry over 50 MiB;
    - more than 200 MiB decompressed in total.
  - `extractZipContents` maps every non-directory entry, under its sanitised name, to its contents.
  - `ValidateZipFile` and `ExtractZipContents` are methods with loops, as in the source. Each is proved equal to a specification function (`Validation`, `Extracted`), and the lemmas are stated about those functions.
- **Request guards** (`api/utils/security.ts`, module `Security`).
  - `validateFileUpload` and `validateCSRFToken` are Express middleware. They are modelled as functions that return `Next` (the request goes on) or `Reject(status, error)`.
- **Environment settings** (module `Env`).
  - `MAX_FILE_SIZE` and `ALLOWED_MIME_TYPES` are read with JavaScript's `value || fallback` rule. An unset variable and an empty one both give the fallback.
  - `parseInt` yields `None` for NaN. A NaN ceiling makes `size > maxSize` false.
- **Project names** (`api/utils/vercel.ts`, module `ProjectName`).
  - `generateProjectName` is a chain of string rewrites followed by a timestamp suffix.
  - The clock reading `Date.now()` is the parameter `now`.
- **Wizard state** (`src/App.tsx`, module `Wizard`).
  - The component's state is the class `WizardState`, with fields `currentStep`, `pathname` and `data` (a map of sections to maps of keys).
  - `navigate(path)` and the effect it triggers on `location.pathname` are folded into one method, `Navigate`. Path parsing is a pure function:
    - the leftmost `/step/` followed by digits, as the unanchored regular expression finds it;
    - the greedy digit run, read in decimal;
    - a value in 1..4 selects that step, and any other path redirects to `/step/1`.
- **String helpers** (module `Strings`).
  - ASCII `toLowerCase`, `includes`, `split` on one character, decimal text of numbers, and `parseInt`.

## Model

| member | source | states |
|---|---|---|
| Strings.Lower | api/utils/upload.ts:48-51 | `toLowerCase` keeps the length and lower-cases each ASCII capital, leaving every other character as it is |
| Strings.LowerOfLowercase | api/utils/upload.ts:48-51 | a name without capitals is its own lower-case form |
| Strings.Split | api/utils/upload.ts:15 | `split(',')` yields at least one piece, and no piece contains the separator |
| Strings.JoinSplit | api/utils/upload.ts:15 | joining the pieces of a split with the separator gives back the original string |
| Strings.SplitJoin | api/utils/upload.ts:15 | splitting the join of separator-free pieces gives the pieces back |
| Strings.NatToString | src/App.tsx:78 | the decimal text of a number in a template literal is a non-empty digit string, with a leading zero only for 0 |
| Strings.DigitsValueOfNatToString | src/App.tsx:78 | reading back the decimal text of `n` gives `n` |
| Strings.LeadingDigits | src/App.tsx:54 | `\d+` takes the longest prefix of digits: a prefix, all digits, followed by a non-digit or by the end |
| Strings.LeadingDigitsOfDigits | src/App.tsx:54 | a digit string followed by a non-digit is exactly the run that is taken |
| Strings.TrimStart | api/utils/security.ts:88 | `parseInt` skips leading white space: the rest is a suffix that does not start with white space, and every character skipped is white space |
| Strings.TrimStartOfSpaces | api/utils/security.ts:88 | white space followed by a character that is not white space is skipped exactly |
| Strings.ParseInt | api/utils/security.ts:88 | `parseInt` gives a number exactly when, after the white space, the text starts with a digit, or with `-` or `+` followed by a digit; otherwise it gives NaN |
| Strings.ParseTrimmed | api/utils/security.ts:88 | the same characterisation of NaN for text that no longer starts with white space |
| Strings.ParseTrimmedUnsigned | api/utils/security.ts:88 | text that starts with a digit parses to the value of its leading digit run |
| Strings.ParseTrimmedSigned | api/utils/security.ts:88 | a sign followed by a digit run parses to the value of the run, negated after `-` |
| Strings.ParseTrimmedOfText | api/utils/security.ts:88 | an optional sign, a digit run and text not starting with a digit parse to the signed value of the run |
| Strings.ParseIntAfterSpaces | api/utils/security.ts:88 | leading white space does not change what `parseInt` reads |
| Strings.ParseIntOfText | api/utils/security.ts:88 | white space, an optional sign, a digit run and any text not starting with a digit parse to the signed value of the run, so trailing text such as ` bytes` is ignored |
| Strings.ParseIntOfNatToString | api/utils/security.ts:88 | `parseInt(String(n)) === n` for every non-negative `n` |
| Env.AllowedMimes | api/utils/security.ts:89 | the allow-list is the comma split of the setting or of its fallback: at least one item, none holds a comma, and joining them gives back the setting |
| Env.DefaultMimesAllowed | api/utils/upload.ts:15-17 | with the fallback list, exactly `application/zip` and `application/x-zip-compressed` are allowed |
| Env.MimeAllowed | api/utils/upload.ts:15-17 | `includes` holds exactly when the type equals one item of the list, with no trimming; a type that contains a comma is never allowed |
| Env.MaxFileSize | api/utils/security.ts:88 | with the fallback, the ceiling is 20971520 bytes |
| Env.DefaultCeilingParses | api/utils/security.ts:88 | the fallback text `20971520` parses to 20971520, which is 20 MiB |
| Env.MaxFileSizeOfNumber | api/utils/security.ts:88 | a setting that starts with the decimal text of `n`, followed by nothing or by a non-digit, gives a ceiling of `n` bytes |
| Upload.FileFilter | api/utils/upload.ts:14-22 | the filter keeps the file exactly when its type is on the allow-list, and otherwise fails with the "Invalid file type" message; with the fallback list it keeps exactly the two ZIP types; it never keeps a type containing a comma |
| Upload.Names | api/utils/upload.ts:31 | the list of names has one entry per archive entry, in order |
| Upload.IsSuspicious | api/utils/upload.ts:34-44 | the three suspicious patterns; its meaning is stated by ContainsTraversal, SuspiciousAnywhereRejects, IndexHtmlIsInnocent and SanitizeKeepsInnocence |
| Upload.NamesIndexFile | api/utils/upload.ts:47-52 | the entry-point test on the lower-cased name; its meaning is stated by IndexHtmlSubsumed, UpperCaseIndexFound, IndexHtmlIsEntryPoint and ShortNameIsNoEntryPoint |
| Upload.Validation | api/utils/upload.ts:26-85 | the verdict of `validateZipFile`; what it answers is stated by ValidationOutcomes, TotalLimitDecides, AcceptedIsBounded and the scenario lemmas, and ValidateZipFile is proved to compute it |
| Upload.ValidateZipFile | api/utils/upload.ts:26-85 | the two loops with early returns and the running total compute exactly the verdict of `Validation` |
| Upload.ValidationOutcomes | api/utils/upload.ts:26-85 | each message is returned exactly when every earlier check passed and its own check failed; valid holds exactly when there is no error, and exactly when the name list is returned; an accepted archive returns every name in order |
| Upload.SuspiciousAnywhereRejects | api/utils/upload.ts:34-44 | one suspicious name at any position rejects the archive as suspicious, whatever the other entries are |
| Upload.IndexHtmlSubsumed | api/utils/upload.ts:47-52 | the `index.html` test never decides on its own, since every name containing it also contains `index.htm` |
| Upload.UpperCaseIndexFound | api/utils/upload.ts:47-52 | `INDEX.HTML` in any directory counts as an entry point, because names are lower-cased first |
| Upload.IndexHtmlIsEntryPoint | api/utils/upload.ts:47-52 | `index.html` is an entry point |
| Upload.IndexHtmlIsInnocent | api/utils/upload.ts:34-44 | `index.html` matches none of the suspicious patterns |
| Upload.TotalSizeIgnoresDirectories | api/utils/upload.ts:62-68 | changing the contents of a directory entry does not change the total size |
| Upload.TotalLimitDecides | api/utils/upload.ts:76-81 | once the earlier checks pass, the archive is accepted exactly when the total is at most 200 MiB, and otherwise rejected as too large in total |
| Upload.AcceptedIsBounded | api/utils/upload.ts:62-81 | in an accepted archive every entry is at most 50 MiB and all entries add up to at most 200 MiB |
| Upload.ExactlyFiftyMiBAccepted | api/utils/upload.ts:69-81 | a single innocent entry point of exactly 50 MiB is accepted, since the per-entry comparison is strict |
| Upload.ShortNameIsNoEntryPoint | api/utils/upload.ts:47-52 | a name shorter than `index.js`, such as `a.txt`, contains none of the four entry-point names |
| Upload.NoIndexScenario | api/utils/upload.ts:54-59 | an archive holding only a short innocent name such as `a.txt` is rejected for the missing index file |
| Upload.TraversalScenario | api/utils/upload.ts:34-44 | an entry `../../etc/passwd` is rejected as suspicious |
| Upload.HugeEntryScenario | api/utils/upload.ts:69-72 | an entry point beside a 60 MiB file is rejected as too large |
| Upload.Sanitize | api/utils/upload.ts:98 | the sanitiser keeps the length, keeps each character of `[a-zA-Z0-9._\-/]`, and replaces every other character by `_` |
| Upload.SanitizeIdempotent | api/utils/upload.ts:98 | sanitising twice is sanitising once |
| Upload.SanitizeKeepsSafeNames | api/utils/upload.ts:98 | a name made of safe characters only is left unchanged |
| Upload.ContainsTraversal | api/utils/upload.ts:35 | a name contains `../` exactly when the three characters occur at some position |
| Upload.SanitizeTraversal | api/utils/upload.ts:98 | the sanitised name contains `../` exactly when the original does, so sanitising neither removes a traversal nor creates one |
| Upload.SanitizeKeepsInnocence | api/utils/upload.ts:34-44 | a name that passes the suspicious-path check still passes it after sanitising |
| Upload.SetProperty | api/utils/upload.ts:99 | an assignment on a plain object adds or replaces the key, except that the key `__proto__` adds no own key |
| Upload.Extracted | api/utils/upload.ts:88-104 | the own keys and values of the object `extractZipContents` builds; stated by ExtractedKeys, ExtractedLastWins and ExtractedKeysSafe, and ExtractZipContents is proved to compute it |
| Upload.ExtractZipContents | api/utils/upload.ts:88-104 | the loop builds exactly the map `Extracted` of the entries, and an archive that does not parse yields no map |
| Upload.ExtractedKeys | api/utils/upload.ts:93-100 | a key is in the result exactly when it is the sanitised name of some non-directory entry and is not `__proto__` |
| Upload.ExtractedLastWins | api/utils/upload.ts:99 | when sanitised names collide, the last non-directory entry's contents are kept; a last entry named `__proto__` leaves no key of that name |
| Upload.ExtractedKeysSafe | api/utils/upload.ts:98-99 | every key holds safe characters only, and when the archive was accepted no key is suspicious |
| Security.CompressionRatioTooHigh | api/utils/security.ts:104-105 | the ratio exceeds 100 exactly when a non-empty buffer is more than a hundred times smaller than the size; an absent or empty buffer makes the divisor the size itself |
| Security.RatioAboveHundred | api/utils/security.ts:104-105 | for a positive divisor, the quotient exceeds 100 exactly when the dividend exceeds a hundred times the divisor |
| Security.ValidateFileUpload | api/utils/security.ts:87-110 | no file gives 400; a size over the ceiling gives 413; a type off the list gives 415; a compression ratio over 100 gives 400 "Suspicious file"; the request goes on exactly when all four checks pass; no other status occurs |
| Security.DefaultUploadGate | api/utils/security.ts:87-110 | with neither setting given, the request goes on exactly when the file has at most 20971520 bytes, is one of the two ZIP types, and passes the ratio check; exactly 20971520 bytes passes |
| Security.UnparsableCeilingAdmitsAnySize | api/utils/security.ts:88-97 | a `MAX_FILE_SIZE` that parses to NaN never yields 413 |
| Security.ValidateCsrfToken | api/utils/security.ts:71-84 | GET, HEAD and OPTIONS go on; any other method goes on exactly when header and session carry the same non-empty token; every other outcome is 403 "Invalid CSRF token" |
| Security.LowerCaseGetNeedsToken | api/utils/security.ts:72 | method names are compared case-sensitively, so `get` without tokens is refused |
| ProjectName.ReplaceInvalid | api/utils/vercel.ts:196 | keeps the length, keeps `[a-z0-9-]` characters, and turns every other into `-` |
| ProjectName.CollapseDashes | api/utils/vercel.ts:197 | the result has no two dashes in a row, is no longer than the input, keeps every non-dash character in order, keeps the character set, and keeps the first and last characters |
| ProjectName.CollapseDoubleDash | api/utils/vercel.ts:197 | two dashes in a row collapse exactly like one dash, wherever they stand; with CollapseKeepsCollapsed this fixes the result of the collapse on every input, since each run of dashes becomes exactly one dash |
| ProjectName.CollapseKeepsCollapsed | api/utils/vercel.ts:197 | a string without a dash run is left unchanged |
| ProjectName.StripDashEnds | api/utils/vercel.ts:198 | the result is the input without its first character exactly when that is a dash, and then without its last character exactly when what is left ends with a dash; so at most two characters go, all of them dashes, and every non-dash character stays in order; a string without dashes at its ends is kept; on a string without dash runs, the result has none either and neither starts nor ends with a dash |
| ProjectName.Normalize | api/utils/vercel.ts:194-198 | after the first statement the name is in `[a-z0-9-]`, has no dash run, and has no dash at either end |
| ProjectName.NormalizeKeepsCleanNames | api/utils/vercel.ts:194-198 | a name already in that shape normalises to itself |
| ProjectName.NormalizeIdempotent | api/utils/vercel.ts:194-198 | normalising twice is normalising once |
| ProjectName.EnsureLetterStart | api/utils/vercel.ts:201-203 | the result starts with a lower-case letter; it is the name itself exactly when the name already started with one, and otherwise `site-` followed by the name |
| ProjectName.PrefixedShape | api/utils/vercel.ts:201-203 | after the `site-` rule the name starts with a lower-case letter and still has no dash run |
| ProjectName.DropTrailingDash | api/utils/vercel.ts:207 | the result is a prefix at most one character shorter, and equals the input exactly when that does not end with a dash |
| ProjectName.Truncate | api/utils/vercel.ts:206-208 | the result is a prefix of the name with at most 63 characters; a name that fits is kept, and a longer one keeps 63 characters exactly when its 63rd is not a dash, and 62 otherwise |
| ProjectName.TruncateShape | api/utils/vercel.ts:206-208 | cutting to 63 characters keeps the first letter, and a cut name does not end with a dash |
| ProjectName.BaseName | api/utils/vercel.ts:194-208 | the base is in `[a-z0-9-]`, starts with a lower-case letter, has at most 63 characters, and does not end with a dash if it was cut |
| ProjectName.BaseNameKeepsValidNames | api/utils/vercel.ts:194-208 | a name that is already a valid base is kept as it is |
| ProjectName.Last | api/utils/vercel.ts:211 | for `k >= 1`, `slice(-k)` is the last `k` characters, or the whole string when it is shorter |
| ProjectName.LastDigitsValue | api/utils/vercel.ts:211 | the last `k` characters of a digit string denote its value modulo `10^k` |
| ProjectName.DigitsValueBound | api/utils/vercel.ts:211 | a string of `m` digits denotes a number below `10^m` |
| ProjectName.TimestampSuffix | api/utils/vercel.ts:211 | the suffix has one to six digits and denotes the clock reading modulo one million; it has six digits once the reading does, and is the whole decimal text of the reading while that has at most six digits |
| ProjectName.NatToStringLength | api/utils/vercel.ts:211 | a number below `10^k` has at most `k` decimal digits |
| ProjectName.GenerateProjectName | api/utils/vercel.ts:192-213 | the name is the base, a dash, and exactly the last six characters of the clock reading's decimal text, leading zeros included: six digits once the reading has six or more, the whole text while it has at most six, and in every case digits denoting the reading modulo one million; the whole name is in `[a-z0-9-]` and starts with a lower-case letter |
| ProjectName.EmptyNormalizationGivesSite | api/utils/vercel.ts:194-202 | an input that normalises to nothing gives base `site-`, hence a name `site--` followed by the digits |
| Wizard.InitialDataComplete | src/App.tsx:45-50 | the initial data holds all four sections |
| Wizard.FirstMatch | src/App.tsx:54 | the unanchored search returns the leftmost position where `/step/` is followed by a digit, or none when there is no such position |
| Wizard.StepCapture | src/App.tsx:54 | the capture group exists exactly when some position matches; it is then the whole digit run right after the leftmost `/step/`: non-empty, all digits, and followed by a non-digit or by the end |
| Wizard.RouteStep | src/App.tsx:54-65 | a path selects a step exactly when its captured digits denote a value in 1..4, and then that value |
| Wizard.RouteOfStepPath | src/App.tsx:54-65 | `/step/k` selects step `k` when `k` is in 1..4 and redirects otherwise |
| Wizard.LeadingZeroRoute | src/App.tsx:57-58 | `/step/0d` selects step `d`, since `parseInt` reads leading zeros away |
| Wizard.NoStepSegmentRedirects | src/App.tsx:63-65 | a path without `/step/<digit>` redirects |
| Wizard.EmbeddedRoute | src/App.tsx:54-59 | text before the first `/step/k` and after its digits is ignored |
| Wizard.NextTarget | src/App.tsx:75-80 | from a step in 1..4, next stays in 1..4, moves up by one below step 4 and stays put at 4 |
| Wizard.PrevTarget | src/App.tsx:82-87 | from a step in 1..4, prev stays in 1..4, moves down by one above step 1 and stays put at 1 |
| Wizard.GoToTarget | src/App.tsx:89-93 | the target is taken exactly when it is in 1..4; otherwise the step is unchanged |
| Wizard.PathTarget | src/App.tsx:52-66 | every location change ends on a step in 1..4: the routed step when the path selects one, and step 1 after a redirect |
| Wizard.RunStaysInRange | src/App.tsx:44 | from step 1, or any step in 1..4, no sequence of next, prev, goTo and location changes leaves 1..4 |
| Wizard.NextThenPrev | src/App.tsx:75-87 | next then prev returns to the starting step below step 4 |
| Wizard.MergeSection | src/App.tsx:71 | the spread has the keys of both maps; patch values win, and the other old values stay |
| Wizard.Updated | src/App.tsx:68-73 | only the named section changes, to the merge of its old contents with the patch; all other sections are unchanged |
| Wizard.MergeIdempotent | src/App.tsx:71 | applying the same patch twice is applying it once |
| Wizard.EmptyPatchIsIdentity | src/App.tsx:71 | an empty patch, as the "change file" button in `src/components/steps/UploadStep.tsx` sends, leaves the data unchanged |
| Wizard.UpdatesOfOtherSectionsCommute | src/App.tsx:68-73 | updates of two different sections commute |
| Wizard.WizardState.constructor | src/App.tsx:44-66 | mounting at a path starts from empty data, and the effect then sets the step the path selects, or redirects to `/step/1` |
| Wizard.WizardState.Navigate | src/App.tsx:52-66 | a routed path sets its step and stays; any other path is replaced by `/step/1` with step 1; the data are unchanged |
| Wizard.WizardState.NextStep | src/App.tsx:75-80 | below step 4 the step goes up by one at `/step/<step>`; at step 4 nothing changes; the invariant holds |
| Wizard.WizardState.PrevStep | src/App.tsx:82-87 | above step 1 the step goes down by one at `/step/<step>`; at step 1 nothing changes; the invariant holds |
| Wizard.WizardState.GoToStep | src/App.tsx:89-93 | a target in 1..4 becomes the step at `/step/<target>`; any other target changes nothing |
| Wizard.WizardState.UpdateWizardData | src/App.tsx:68-73 | the data become `Updated` of the old data; step and location are unchanged |
| Wizard.WizardState.CanGoNext | src/App.tsx:115 | the next button is enabled exactly when `nextStep` would move |
| Wizard.WizardState.CanGoPrev | src/App.tsx:116 | the back button is enabled exactly when `prevStep` would move |

## Left out

- JSZip is not modelled: neither parsing nor DEFLATE decompression. An archive is the list of entries JSZip reports, or `None` when `loadAsync` fails.
- A decompression failure of a single entry inside the size loop is not modelled. In the source it is caught and reported as "Invalid ZIP file format".
- The order of `Object.keys` is not modelled. The entry list is taken in the order JSZip reports it, and one entry per name is assumed. JavaScript puts integer-like keys first, which only reorders the returned name list.
- Upload.ExtractZipContents: the source throws when the archive does not parse; the model returns `None` instead.
- The multer `limits` (`fileSize`, `files: 1`), memory storage and the Express request and response objects are left out. Only the file filter's decision is modelled.
- The GitHub and Vercel REST clients, the deploy and auth handlers, and the other HTTP calls are left out. These are external services.
- Token generation, rate limiting, helmet, CORS and cookie settings in `api/utils/security.ts` are configuration or randomness, and are left out.
- The React rendering, animations, toasts and timers are left out. The step components and `src/components/WizardLayout.tsx` reach the core only through the callbacks `App` passes them, and those are the class methods: `updateData` is `UpdateWizardData`; `onNext` is `NextStep` (called at `src/components/steps/UploadStep.tsx:111`, `src/components/steps/GitHubStep.tsx:23` and `src/components/steps/VercelStep.tsx:30`, and by the layout's next button); the layout's step links and back button call `GoToStep` and `PrevStep`.
- Strings.Lower: case handling is ASCII only; `toLowerCase` changes only `A`-`Z`. JavaScript also lower-cases non-ASCII capitals, some of them into ASCII: KELVIN SIGN U+212A becomes `k`, and U+0130 becomes `i` followed by U+0307. For names holding such characters the model's project name differs from the source's (`-` instead of `k`, for instance), and `INDEX.HTML` spelt with them is not found as an entry point. For every other name the final `[^a-z0-9-]` replace maps the non-ASCII characters to `-` in both.
- Strings.TrimStart: skips only ASCII white space; JavaScript's `parseInt` also skips Unicode spaces and line terminators such as U+00A0 and U+2028.
- Upload.Sanitize: a character is one Unicode scalar value, while the source's regular expression (no `u` flag) replaces UTF-16 code units. A character outside the Basic Multilingual Plane, such as U+1F600, becomes `__` in the source and `_` in the model. For names made of Basic Multilingual Plane characters the two agree.
- Upload.ExtractZipContents: an assignment to `__proto__` creates no key, as modelled by SetProperty, but it also makes the entry's Buffer the object's prototype. The model does not track that prototype; a later entry named after a read-only inherited accessor, such as `length`, then throws a TypeError in the source's strict-mode code, while the model stores it.
- Strings.ParseInt: does not model the `0x` prefix or numbers beyond double precision. All values used are small decimal integers.
- Security.CompressionRatioTooHigh: the division is exact over the reals, not IEEE doubles. Rounding affects only ratios within one ulp of 100. With memory storage the buffer length equals the size, so the check never fires in practice.
- Security.ValidateCsrfToken: the header and the session token are single optional strings. An array-valued header is not modelled.
- Wizard.WizardState.GoToStep: takes an integer. A fractional JavaScript number is excluded; callers pass step ids.
- Wizard.WizardState.Navigate: the effect is assumed to settle before the next action. Intermediate renders, in which `currentStep` still lags the new location, are not represented.
- `Date.now()` is the parameter `now`. It is not read from a clock.
