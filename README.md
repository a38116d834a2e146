# UPSC portal storage core, in Dafny

This project models the client-side storage layer of the UPSC study portal. It has three parts:

- **The material store** (`FileStorage`). It holds an ordered list of study materials: uploaded files and Google Drive links. It can:
  - append records;
  - delete, rename or move a record by id;
  - answer filtered views, search, sorted folder names and counts;
  - export and import the whole list.

  Every successful change writes the whole list back to the persistent medium under `upsc-portal-materials`.
- **The account store** (`AuthStore`). It holds the registered accounts and the current session:
  - registration refuses an email or username already in use, ignoring letter case;
  - the two logins return "User not found" before "Invalid password";
  - signing in stores a session that carries only id, name, email and role.
- **The input sanitizers**. These are pure string transforms: strip control characters, trim, drop quotes and semicolons, collapse whitespace, truncate, filter to whitelists, check for an http(s) scheme and test for a Gmail suffix.

Modules:

- `Wrappers`: `Option`.
- `Seqs`: filtering (`Keep`, JavaScript's `Array.prototype.filter`), first-index search (`FindIndex`, JavaScript's `findIndex`/`find`) and subsequences.
- `Text`: ASCII lower case, the JavaScript whitespace class `\s`, truthiness of optional strings, substring search, case-insensitive comparison.
- `Order`: the lexicographic string order the default array sort uses, and sorted lists of distinct strings.
- `Sanitize`: src/utils/sanitize.js.
- `Materials`: src/utils/fileStorage.js. It has the `FileStorage` class, with `files: seq<Material>` and the medium as `map<string, Value>`, plus the pure lookups.
- `Auth`: src/utils/authStorage.js.
  - The pure lookups, logins and registration are functions of the loaded account list.
  - `Register` is the specification of `createUser`.
  - The `AuthStore` class holds `users` and `session`. Its methods are proved equal to those functions.

Ids, timestamps and object URLs are parameters of the operations, because the code draws them from `Date.now()`, `Math.random()`, `new Date()` and `URL.createObjectURL`. `undefined` and `null` arguments are `None`.

Where the behaviour one might expect and the code differ, the model follows the code:

- `exportData` (src/utils/fileStorage.js:224-232) is described as dropping the blob reference of each record. In fact it copies every field, `url` included, and adds a key `file: null`. `ExportData` keeps every field.

## Model

| member | source | states |
|---|---|---|
| Seqs.Keep | src/utils/fileStorage.js:82 | the filter keeps exactly the elements the predicate accepts, and every kept element satisfies it |
| Seqs.KeepCount | src/utils/fileStorage.js:82 | filtering keeps every accepted element as often as it occurs and drops every rejected one |
| Seqs.KeepOrdered | src/utils/fileStorage.js:82 | the filtered list is a subsequence of the input: original order is kept |
| Seqs.KeepAll | src/utils/fileStorage.js:187-191 | a filter every element passes returns the list unchanged |
| Seqs.KeepConcat | src/utils/fileStorage.js:82 | filtering distributes over concatenation |
| Seqs.FindIndex | src/utils/fileStorage.js:97 | `findIndex`: -1 exactly when no element matches, otherwise the first matching index |
| Text.Lower | src/utils/fileStorage.js:186 | lower-casing keeps the length and maps each character through the ASCII lower-case map |
| Text.LowerOfLower | src/utils/sanitize.js:17 | a string with no capital letters is its own lower-case form |
| Text.OrEmpty | src/utils/authStorage.js:30 | `x \|\| ''` yields the string when it is truthy and "" otherwise |
| Text.ContainsAt | src/utils/fileStorage.js:188-190 | `includes` holds exactly when the needle occurs at some index |
| Text.EqualIgnoringCaseLower | src/utils/sanitize.js:37 | comparing with the `i` flag is the same as comparing lower-cased strings |
| Order.LessIrreflexive | src/utils/fileStorage.js:197 | no string sorts before itself |
| Order.LessAsymmetric | src/utils/fileStorage.js:197 | two strings never sort before each other |
| Order.LessTransitive | src/utils/fileStorage.js:197 | the sort order is transitive |
| Order.LessTotal | src/utils/fileStorage.js:197 | any two distinct strings are ordered one way or the other |
| Order.HeadBelowTail | src/utils/fileStorage.js:197 | the head of a strictly sorted list is below every later element |
| Order.SortedCons | src/utils/fileStorage.js:197 | a value below every element of a sorted list can be put in front |
| Order.LessBelowAll | src/utils/fileStorage.js:197 | a value below the head of a sorted list is below all of it |
| Order.InsertUnique | src/utils/fileStorage.js:196-197 | inserting into a strictly sorted list keeps it strictly sorted and adds exactly that value |
| Order.SortedDistinct | src/utils/fileStorage.js:196-197 | `[...new Set(xs)].sort()` is strictly sorted and holds exactly the values of `xs` |
| Order.SortedUnique | src/utils/fileStorage.js:196-197 | two strictly sorted lists with the same elements are equal: the result is determined |
| Order.SortedCardinality | src/utils/fileStorage.js:212 | a strictly sorted list has as many elements as distinct values |
| Order.DistinctCount | src/utils/fileStorage.js:212 | the length of the sorted distinct list is the number of distinct input values |
| Sanitize.StripControl | src/utils/sanitize.js:3 | no character in U+0000–U+001F or U+007F remains; every other character is kept, as often as it occurs and in order |
| Sanitize.TrimStart | src/utils/sanitize.js:7 | the result is a suffix; everything removed is whitespace; it does not start with whitespace |
| Sanitize.TrimEnd | src/utils/sanitize.js:7 | the result is a prefix; everything removed is whitespace; it does not end with whitespace |
| Sanitize.Trim | src/utils/sanitize.js:7 | `trim` keeps only characters of the input, leaves no whitespace at either end and leaves space-free text unchanged |
| Sanitize.TrimEdges | src/utils/sanitize.js:7 | `trim` removes whitespace at the two edges only: the input is a whitespace run, then the result, then another whitespace run |
| Sanitize.TrimKeeps | src/utils/sanitize.js:7 | filtering out whitespace (and possibly more) gives the same text before and after `trim` |
| Sanitize.DropQuotes | src/utils/sanitize.js:9 | no `"`, `'`, backtick or `;` remains; every other character is kept with all its occurrences, in order |
| Sanitize.Collapse | src/utils/sanitize.js:11 | the collapse is never longer than its input, and a text that starts with whitespace starts with one space |
| Sanitize.CollapseChars | src/utils/sanitize.js:11 | every character of the collapse is a space or a character of the input |
| Sanitize.CollapseSpacing | src/utils/sanitize.js:11 | the only whitespace left by the collapse is the plain space, and no two whitespace characters are adjacent |
| Sanitize.ScanSkipsRun | src/utils/sanitize.js:11 | inside a whitespace run the scanner skips to the first non-whitespace character |
| Sanitize.CollapseIsScan | src/utils/sanitize.js:11 | the collapse equals a left-to-right scan that emits one space per whitespace run |
| Sanitize.CollapseKeepsText | src/utils/sanitize.js:11 | collapsing whitespace keeps the non-whitespace text exactly, in order |
| Sanitize.CollapseNoSpace | src/utils/sanitize.js:11 | text without whitespace is not changed by the collapse |
| Sanitize.Scrub | src/utils/sanitize.js:7-9 | after stripping control characters, trimming and dropping quotes, no control, quote or semicolon character remains |
| Sanitize.Clean | src/utils/sanitize.js:7-11 | the uncapped result holds no control, quote or semicolon character, no whitespace but plain spaces and never two of them in a row |
| Sanitize.SanitizeString | src/utils/sanitize.js:5-14 | null gives ""; the output is at most `maxLen` long, holds no control, quote or semicolon character, has no whitespace but plain spaces and never two of them in a row |
| Sanitize.ScrubKeepsText | src/utils/sanitize.js:7-9 | stripping control characters, trimming and dropping quotes keeps the input's plain characters exactly, in order |
| Sanitize.CleanKeepsText | src/utils/sanitize.js:7-11 | before the cap, the non-whitespace text of the result is exactly the input's plain characters in order, and each whitespace run of the scrubbed text becomes one space (the scanning reference) |
| Sanitize.SanitizeStringKeepsText | src/utils/sanitize.js:5-14 | the result is the cleaned text itself when it fits the cap and its first `maxLen` characters otherwise; the non-whitespace text of the result is a prefix of the input's plain characters, and all of them when the cleaned text fits the cap |
| Sanitize.SanitizeStringKeepsPlain | src/utils/sanitize.js:5-14 | text within the cap that holds no control, quote, semicolon or whitespace character comes back unchanged |
| Sanitize.SanitizeUsername | src/utils/sanitize.js:16-21 | the output is at most `maxLen` long and uses only `a-z 0-9 . _ -` |
| Sanitize.SanitizeUsernameContent | src/utils/sanitize.js:16-21 | when the cleaned text fits the cap, the result is exactly the user-name characters of the lower-cased input, in order |
| Sanitize.SanitizeUsernameIdempotent | src/utils/sanitize.js:16-21 | sanitizing a sanitized username changes nothing |
| Sanitize.SanitizeEmail | src/utils/sanitize.js:23-28 | the output is at most `maxLen` long and uses only `a-z 0-9 @ . _ + -` |
| Sanitize.SanitizeEmailContent | src/utils/sanitize.js:23-28 | when the cleaned text fits the cap, the result is exactly the e-mail characters of the lower-cased input, in order |
| Sanitize.SanitizeEmailIdempotent | src/utils/sanitize.js:23-28 | sanitizing a sanitized email changes nothing |
| Sanitize.SanitizeUrl | src/utils/sanitize.js:30-35 | the result is "" or the sanitized string, and it is non-empty exactly when the sanitized string starts with `http://` or `https://` in any letter case |
| Sanitize.SanitizeUrlKeepsPlainLinks | src/utils/sanitize.js:30-35 | an http(s) link within the cap that holds no control, quote, semicolon or whitespace character comes back unchanged |
| Sanitize.IsGmail | src/utils/sanitize.js:37 | true exactly when the address (null as "") ends with `@gmail.com`, ignoring case |
| Materials.Extension | src/utils/fileStorage.js:132 | `split('.').pop()`: the extension has no dot and is no longer than the name |
| Materials.ExtensionIsLastSegment | src/utils/fileStorage.js:132 | the extension is a suffix of the name and is preceded by a dot unless it is the whole name |
| Materials.ExtensionAfterLastDot | src/utils/fileStorage.js:132 | the extension of `base.ext` is `ext`, whatever `base` holds |
| Materials.ExtensionWithoutDot | src/utils/fileStorage.js:132 | a name without a dot is its own extension |
| Materials.GetFileType | src/utils/fileStorage.js:131-154 | the type is always one of the table's types |
| Materials.FileTypeLookup | src/utils/fileStorage.js:131-154 | for every `base.ext` the type is the table entry of the lower-cased `ext`, and "PDF" when the table has none |
| Materials.FileTypeWithoutDot | src/utils/fileStorage.js:131-154 | a name without a dot is typed by the table entry of the whole lower-cased name, and "PDF" when the table has none |
| Materials.FileTypeOfExtension | src/utils/fileStorage.js:131-154 | the type of `base.ext` depends on `ext` alone and ignores its letter case |
| Materials.GetFileIcon | src/utils/fileStorage.js:166-182 | a type in the table gets its own icon, any other type gets the book, so the icon is always one of the table's icons |
| Materials.EveryTypeHasIcon | src/utils/fileStorage.js:166-182 | every type `getFileType` can return, and LINK, has its own icon entry |
| Materials.GetFileTypeAsWritten | src/utils/fileStorage.js:153 | the lookup as written returns an inherited member exactly for the Object.prototype property names; see `ReachablePrototypeKeys` for which of them an extension can reach |
| Materials.ReachablePrototypeKeys | src/utils/fileStorage.js:132-153 | a lower-cased extension that names an inherited property is "constructor" or "__proto__"; every other inherited name has a capital letter |
| Materials.FileTypeAsWrittenAgrees | src/utils/fileStorage.js:153 | away from those names the lookup as written agrees with `GetFileType` |
| Materials.ConstructorExtensionCounterexample | src/utils/fileStorage.js:153 | "notes.constructor" is typed as the inherited constructor instead of "PDF" |
| Materials.RemoveKeepsUniqueIds | src/utils/fileStorage.js:99 | splicing one record out of a list with unique ids keeps them unique and removes that id |
| Materials.AppendKeepsUniqueIds | src/utils/fileStorage.js:47 | pushing a record with a fresh id keeps ids unique |
| Materials.FolderNames | src/utils/fileStorage.js:196 | `files.map(f => f.folder)` holds exactly the folders of the records |
| Materials.ImportedFiles | src/utils/fileStorage.js:237 | the import guard accepts exactly an object whose `files` is an array, and yields that array |
| Materials.FileStorage.constructor | src/utils/fileStorage.js:5-19 | the store starts from the saved list, or empty when none is saved |
| Materials.FileStorage.SaveFiles | src/utils/fileStorage.js:22-28 | the medium then holds exactly the current list under the storage key and nothing else changes |
| Materials.FileStorage.AddLocalFile | src/utils/fileStorage.js:31-50 | exactly one record is appended and returned, with its type from the name, "0 Bytes" for an empty file, folder "General" by default, a falsy course as null, and the list saved; a fresh id keeps ids unique |
| Materials.FileStorage.AddDriveLink | src/utils/fileStorage.js:53-73 | exactly one LINK record is appended and returned, size "0 Bytes", url = driveLink, name "Material" and folder "General" by default, description "" by default, a falsy course as null, and the list saved |
| Materials.FileStorage.GetFilesByFolder | src/utils/fileStorage.js:81-83 | exactly the records in that folder, each as often as stored, in their original order |
| Materials.FileStorage.GetFilesByCourse | src/utils/fileStorage.js:86-88 | exactly the records with that course, each as often as stored, in their original order |
| Materials.FileStorage.GetFileById | src/utils/fileStorage.js:91-93 | nothing exactly when no record has the id, otherwise the first record that has it |
| Materials.FileStorage.DeleteFile | src/utils/fileStorage.js:96-104 | true exactly when some record has the id; then the first such record alone is removed and the list saved; otherwise nothing changes; with unique ids the id is gone, so a second delete returns false |
| Materials.FileStorage.RenameFile | src/utils/fileStorage.js:107-116 | true exactly when some record has the id; then only that first record's name and lastModified change and the list is saved; otherwise nothing changes |
| Materials.FileStorage.MoveFile | src/utils/fileStorage.js:119-128 | true exactly when some record has the id; then only that first record's folder and lastModified change and the list is saved; otherwise nothing changes |
| Materials.FileStorage.SearchFiles | src/utils/fileStorage.js:185-192 | exactly the records whose lower-cased name, folder or type contains the lower-cased query, each as often as stored, in order |
| Materials.SearchFindsSubstrings | src/utils/fileStorage.js:185-192 | a record is found exactly when the lower-cased query occurs at some index of its lower-cased name, folder or type |
| Materials.SearchEmptyQuery | src/utils/fileStorage.js:185-192 | the empty query returns the whole list |
| Materials.FileStorage.GetFolders | src/utils/fileStorage.js:195-198 | strictly sorted, so free of duplicates, and holding a folder exactly when some record has it |
| Materials.FileStorage.GetStats | src/utils/fileStorage.js:201-221 | the record count, the number of distinct folders and of distinct types; "0 Bytes" total when every size is zero; all zero on an empty store |
| Materials.FileStorage.ExportData | src/utils/fileStorage.js:224-232 | the export carries the export time and imports back to exactly the current list |
| Materials.FileStorage.ImportData | src/utils/fileStorage.js:235-247 | true exactly when `data.files` is an array; then the list is replaced by it and saved; otherwise nothing changes |
| Auth.FindUserByEmail | src/utils/authStorage.js:28-31 | nothing exactly when no account's email (null as "") equals the argument ignoring case, otherwise the first such account |
| Auth.FindUserByUsername | src/utils/authStorage.js:33-36 | nothing exactly when no account's username (null as "") equals the argument ignoring case, otherwise the first such account |
| Auth.Login | src/utils/authStorage.js:64-76 | the shared shape of both logins: "User not found" exactly when no account matches, "Invalid password" exactly when the first match has another password, otherwise success with the first match |
| Auth.ValidateLogin | src/utils/authStorage.js:64-69 | "User not found" exactly when no email matches; "Invalid password" exactly when the first match has another password; otherwise success with the first match |
| Auth.ValidateLoginByUsername | src/utils/authStorage.js:71-76 | the same three outcomes for the username, as written (an account without a username matches "") |
| Auth.ValidateLoginByUsernameStrict | src/utils/authStorage.js:71-76 | corrected login: success only for a stored account with a non-empty username equal to the argument ignoring case and with that password; the empty username finds nobody |
| Auth.StrictLoginAgrees | src/utils/authStorage.js:71-76 | for every non-empty username the corrected login and the code as written agree |
| Auth.NewUser | src/utils/authStorage.js:48-58 | role "owner"; name "User" when falsy; email and username null when falsy and otherwise as given, so never ""; password, gmailVerified, id and time as given |
| Auth.Register | src/utils/authStorage.js:38-62 | "Email already registered" exactly when a truthy email is taken; "Username already taken" exactly when the email is free and a truthy username is taken; both leave the list unchanged; otherwise the new account is appended and returned; no two accounts ever clash |
| Auth.RegisterWithGmail | src/utils/authStorage.js:78-81 | "Gmail verification required" with nothing changed for a falsy address; otherwise exactly `createUser` with that email, marked verified |
| Auth.AppendKeepsUniqueAccounts | src/utils/authStorage.js:59 | appending an account that clashes with none keeps the accounts unique |
| Auth.FreshAccountClashesWithNone | src/utils/authStorage.js:40-47 | an account whose email and username passed both existence checks clashes with no stored account |
| Auth.RegisterThenLogin | src/utils/authStorage.js:38-69 | after registering with an email, logging in with it and the password returns the new account |
| Auth.RegisterThenLoginByUsername | src/utils/authStorage.js:38-76 | after registering with a username, the corrected username login with it and the password returns the new account |
| Auth.RegisterSameEmailTwice | src/utils/authStorage.js:40-44 | registering an email again, in any letter case, fails with "Email already registered" |
| Auth.LoginFindsTheAccount | src/utils/authStorage.js:64-69 | with unique accounts, a successful login by a non-empty email returns the only account with that email |
| Auth.EmptyUsernameFindsUsernamelessAccount | src/utils/authStorage.js:35 | after the Gmail button's account is registered, username "" with its password logs in as written, and the corrected login refuses it |
| Auth.AuthStore.constructor | src/utils/authStorage.js:8-16 | the stored account list, or empty when none is stored |
| Auth.AuthStore.CreateUser | src/utils/authStorage.js:38-62 | reply and new account list are exactly those of `Register`; the session is untouched |
| Auth.AuthStore.CreateUserWithGmail | src/utils/authStorage.js:78-81 | reply and new account list are exactly those of `RegisterWithGmail`; the session is untouched |
| Auth.AuthStore.SetAuthSession | src/utils/authStorage.js:83-89 | the session is authenticated and holds exactly id, name, email and role of the account, never its username or password; the accounts are untouched |

## Left out

- src/utils/secureStorage.js, which wraps AES encryption and `localStorage`, is not part of this model. The medium is an abstract map from key to value: `FileStorage.medium`, and the `users` and `session` fields of `AuthStore`. Decrypting and JSON-parsing a stored entry does not always give back what was written, so no storage round trip is claimed. Storage failures, with their `try`/`catch` and `console.error`, are not modelled: saving always succeeds.
- `formatFileSize` (src/utils/fileStorage.js:157-163) uses floating-point `Math.log`, `toFixed` and `parseFloat`. Only its zero case, "0 Bytes", is modelled. For a non-empty file the formatted label is a parameter of `AddLocalFile`.
- Materials.FileStorage.GetStats: `totalSize` is stated only when every record's size is "0 Bytes". Otherwise it is `None`, because re-summing formatted sizes uses floating point (src/utils/fileStorage.js:203-210).
- `toLowerCase` is modelled over ASCII letters only. Other Unicode case mappings are not modelled.
- The whitespace class `\s` is modelled exactly by code point.
- Strings are sequences of code points, not UTF-16 code units. So `length`, `slice` and `sort` differ from JavaScript on characters outside the Basic Multilingual Plane.
- Ids are integers. The code's `Date.now() + Math.random()` ids are fractional. Only equality of ids matters to the store.
- Course ids are optional integers. `courseId || null` turns 0 and a missing value into null. String course ids and the strict `===` comparison across types are not modelled.
- Coercions of non-string arguments (`String(email)`, `String(s)`), and methods called on non-string values, which throw, are not modelled. Arguments are strings or null.
- Stored values other than a material list (`OtherValue`) read as an empty store. Records of other shapes are not modelled.
- Records are values. The code mutates the found record in place, and that record is shared with any caller that still holds it. The model updates the list element instead, so aliasing is not captured.
- Materials.FileStorage.AddLocalFile: the stored `type` is the corrected lookup `GetFileType`. A file whose extension names an inherited property (finding 1) is stored with a string type, so the records holding a function and the `searchFiles` failure that follows from them are not modelled in the store.
- Materials.FileStorage.AddLocalFile: a `folder` of `null` is treated as missing and becomes "General". The code applies its default only to `undefined` and stores `null`, which `searchFiles` would then fail on (src/utils/fileStorage.js:31, 189). No page passes `null`.
- Materials.FileStorage.AddDriveLink: a `folder` or `description` of `null` is treated as missing and becomes "General" or "". The code applies these defaults only to `undefined` and stores `null` (src/utils/fileStorage.js:53). No page passes `null`.
- The `file: null` key that `exportData` adds to every exported record is not modelled.
- `getAllFiles` returns the live array. It is modelled as a plain read of `files` and carries no contract.
- `loadUsers` and `saveUsers` are the reads and writes of `AuthStore.users`. The `false` that `saveUsers` returns on a storage error is not modelled.
- Passwords are compared as plain strings, as the code does.
- The object-literal lookup in `getFileIcon` (src/utils/fileStorage.js:181) has the same inherited-key behaviour as `getFileType`. The model reports the finding for `getFileType` only, and `GetFileIcon` treats every type that is not in the table as unknown.
- `validateLogin` with the empty email also finds the first account without an email. No page calls it, so only the username form is reported below.
- Pages, router and configuration (src/pages, src/App.jsx, tailwind.config.cjs, vite.config.js) are not part of this model.

## Findings

| source | as written | input that shows it | evidently intended | confidence | as-written member | corrected member |
|---|---|---|---|---|---|---|
| src/utils/fileStorage.js:153 | `typeMap[extension] \|\| 'PDF'` indexes a plain object literal, so an extension that names an inherited Object.prototype property returns that property | a file named "notes.constructor" gets the `Object` constructor function as its type, and `searchFiles` then calls `toLowerCase` on a function | unknown extensions are typed "PDF" | medium, not executed | Materials.ConstructorExtensionCounterexample | Materials.GetFileType |
| src/utils/authStorage.js:35 | `(u.username \|\| '')` compares an account without a username as "" | after the Gmail button has registered "owner@gmail.com" with no username and password "oauth" (src/pages/Login.jsx:97), `validateLoginByUsername({username: "", password: "oauth"})` returns that account. The login page itself cannot send this input: its username field is required and is sanitized on every keystroke (src/pages/Login.jsx:26, 302) | an account without a username cannot be reached through username login | medium, not executed | Auth.EmptyUsernameFindsUsernamelessAccount | Auth.ValidateLoginByUsernameStrict |
