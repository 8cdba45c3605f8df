# A verified model of the password manager's vault core

The program is a console password manager. It keeps (service, username,
password) entries behind a master password and stores them as JSON in an
encrypted file. It can search, remove and merge ("sync") entries from another
vault file. This project models the parts of it that make decisions, and
proves what they guarantee:

- `Vault` (passwords.dfy) is the `Passwords` class and `PasswordData`. It has
  the list of entries and the master-password hash as fields of a class, both
  constructors, `ToString`'s grouping by service, `Append`, `RemoveExactMatch`,
  both `Remove`s, `Find` and its two shorthands, `Sync`, `ChangeMainPassword`,
  `CheckMainPassword` and `Clear`.
- `VaultDocument` (document.dfy) is the JSON document as already-parsed values.
  It defines the grouping `ToString` builds and the entries a reader takes out.
  It proves that grouping keeps every entry and files each one under its own
  service, with services in first-seen order. It also models how the JSON
  writer escapes the strings it puts between quotes.
- `Hasher` (hasher.dfy) is `Get` and `Verify`. The stored form is the Base64
  of salt ++ key. Verification fails closed. A stored hash verifies against
  the password it was made from.
- `UI` (ui.dfy) covers five pieces:
  - the `GetLine` key loop, run over a key sequence;
  - `ConfirmAction`;
  - `ValidatePasswordInput` with its messages;
  - `PrintHeader`'s centring;
  - the `PrintColorizedLine` tokenizer, which produces coloured segments.
- `UpdateManager` (update_manager.dfy) is `EscapePathForBash`, with a model of
  how bash reads the quoted word back, plus the download percentage and the
  `DrawProgressBar` arithmetic.
- Supporting modules:
  - `Text` has the .NET character classes and string helpers the code calls.
    This includes C#'s truncating integer division, `CsDiv`.
  - `Seqs` has sequence helpers.
  - `Terminal` has console output as coloured segments.
  - `Wrappers` has `Option`.

Keyboard input, random salts, PBKDF2 and Base64 become parameters. The keys are
a `seq<KeyInfo>`. The salt is an argument. The primitives are a `Primitives`
value of functions, and `CodecSound` states what RFC 4648 section 4 promises of
Base64.

Three behaviours of the code are easy to misread, and the model follows the
code in each:

- `Append` skips an entry only when that very object is already in the list.
  `List.Contains` on a class without `Equals` compares references. A fresh
  object holding an identical triple is appended again, so the list is not
  deduplicated by triple.
- Reading a document happens in the constructor and in `Sync`. In both it is
  two nested `foreach` loops inside a `try` whose `catch` swallows the
  exception. A service that maps to `null` throws at the inner `foreach`. A
  `null` record throws where its `username` is read. Either way the reading
  stops part-way, and the entries added so far stay in the list. The model
  stops reading at the first `null` list or record (`VaultDocument.Entries`),
  so the constructor and `Sync` keep the partial result.
- `PrintColorizedLine` ends a string at the first quote that has no backslash
  right before it. A string whose content ends in a backslash is written as
  `...\\"`, so its closing quote is missed. This case is listed under
  "## Findings".

## Model

| member | source | states |
|---|---|---|
| Vault.PasswordData.constructor | Classes/Passwords.cs:153-165 | the three fields are the arguments and never change (they are `const`) |
| Vault.Passwords.constructor | Classes/Passwords.cs:20-23 | a new vault has no entries and an empty master password |
| Vault.Passwords.FromDocument | Classes/Passwords.cs:25-46 | the master password is the document's (empty if unparsable); the entries are the document's triples group by group, each a new object, no object twice, stopping at the first `null` list or record |
| Vault.ReadGroups | Classes/Passwords.cs:36-41 | the outer reading loop yields the entries of the groups up to the first `null` list or record, each a new object, no object twice |
| Vault.ReadRecords | Classes/Passwords.cs:39-40 | one group's records become new objects appended after the entries already read, which stay in front, in order; it reports completion exactly when the group has no `null` record, and stops at the first one |
| VaultDocument.GroupTriplesNull | Classes/Passwords.cs:40 | from a `null` record on, a group yields nothing more, and the group is not null-free |
| Vault.GroupOne | Classes/Passwords.cs:53-54 | one turn of the grouping loop: a new service opens a group at the end, and the record goes to the end of its service's group |
| Vault.Passwords.ToDocument | Classes/Passwords.cs:48-62 | the document holds the master password and the entries grouped by service |
| VaultDocument.GroupedShape | Classes/Passwords.cs:50-55 | groups come in first-seen order of their service, services are distinct, no group is null, and each group holds exactly the records of its service in list order |
| VaultDocument.GroupingRoundTrip | Classes/Passwords.cs:50-55 | reading the grouped document back yields the same multiset of entries |
| VaultDocument.GroupIntoEntries | Classes/Passwords.cs:51-55 | each turn of the grouping loop adds exactly its entry to what the groups hold |
| VaultDocument.GroupIntoServices | Classes/Passwords.cs:53 | a service gets a new group only the first time it is seen |
| VaultDocument.GroupIntoRecords | Classes/Passwords.cs:54 | the records under a service are the earlier ones followed by that service's records from the list |
| VaultDocument.EntriesAppend | Classes/Passwords.cs:36-41 | reading groups with no null lists or records is reading them one after another |
| VaultDocument.EntriesFlatten | Classes/Passwords.cs:36-41 | with no null list or record, `Entries` (what a reader takes out) is every record of every group, in group order, each under its group's service |
| VaultDocument.FlattenAppend | Classes/Passwords.cs:36-41 | the records of two runs of groups, side by side, are those of the first run followed by those of the second |
| VaultDocument.AddFlatten | Classes/Passwords.cs:53-54 | one turn of the grouping loop adds exactly its entry to the records the groups hold, as a multiset |
| VaultDocument.GroupIntoFlatten | Classes/Passwords.cs:51-55 | the whole grouping loop adds exactly its entries to the records the groups hold, as a multiset |
| Vault.LoadAfterSave | Classes/Passwords.cs:25-62 | loading what `ToString` wrote gives back the same entries as a multiset |
| Vault.Passwords.Append | Classes/Passwords.cs:64-68 | the list is unchanged if that very object is in it, otherwise it gains it at the end; the master password stays; distinctness is kept |
| Vault.ExactIndex | Classes/Passwords.cs:72-75 | the index of the first entry whose service and username both equal the arguments, or none when no entry does |
| Vault.Passwords.RemoveExactMatch | Classes/Passwords.cs:70-80 | exactly the first exact match is removed, whatever its password; no match leaves the list as it was; order is kept |
| Vault.Passwords.Remove | Classes/Passwords.cs:88 | the first occurrence of that very object is removed, and no other entry |
| Seqs.RemoveFirst | Classes/Passwords.cs:88 | no occurrence leaves the list as it was; otherwise the list is one shorter |
| Seqs.RemoveFirstSlices | Classes/Passwords.cs:88 | what is removed is the element at its first index: the list before it and the list after it, joined |
| Seqs.RemoveFirstDistinct | Classes/Passwords.cs:88 | removing from a list without repeats leaves a list without repeats |
| Seqs.RemoveFirstMultiset | Classes/Passwords.cs:88 | removing takes one copy of the element out of the multiset, or none when absent |
| Vault.Passwords.RemoveMatching | Classes/Passwords.cs:82-86 | the list afterwards is exactly the entries `Find` would not return, in their order; a list with no object twice keeps that property |
| Vault.DropStep | Classes/Passwords.cs:84-85 | removing the next found entry from the partly reduced list drops exactly the next match |
| Vault.DropSkip | Classes/Passwords.cs:84-85 | an entry that does not match is never the one removed, so it stays in front |
| Vault.DropAll | Classes/Passwords.cs:84-85 | after all found entries are removed one by one, what remains is the unmatched entries in order |
| Vault.MatchingKeepsOrder | Classes/Passwords.cs:127-138 | `Matching`, the entries `Find` returns: they are a subsequence of the list; with both filters null or empty they are the whole list |
| Vault.MatchingMembers | Classes/Passwords.cs:130-136 | each returned entry is in the list and passes both filters, and each list entry that passes both is returned |
| Vault.UnmatchedMembers | Classes/Passwords.cs:82-86 | `Unmatched`, the entries left by `Remove(type, username)`: they are list entries that fail the filter, and every failing entry stays |
| Vault.UnmatchedDistinct | Classes/Passwords.cs:82-86 | the entries left by `Remove(type, username)` hold no object twice when the list held none |
| Vault.FindPartitions | Classes/Passwords.cs:82-86 | found and remaining entries together are the whole list as a multiset |
| Vault.Passwords.Find | Classes/Passwords.cs:127-138 | returns the matching entries in list order, case-insensitively on substrings, each criterion ignored when null or empty |
| Vault.Passwords.GetByType | Classes/Passwords.cs:123 | `Find` on the service only |
| Vault.Passwords.GetByUsername | Classes/Passwords.cs:125 | `Find` on the username only |
| Vault.Merge | Classes/Passwords.cs:99-116 | the merged list extends the old one and adds at most the incoming entries |
| Vault.MergeStep | Classes/Passwords.cs:102-115 | one incoming triple is appended when absent and skipped when present, before the rest |
| Vault.MergeContents | Classes/Passwords.cs:104-115 | every incoming triple ends up present; every added triple is incoming, was absent before and is added once |
| Vault.MergeKeepsOrder | Classes/Passwords.cs:99-116 | added triples come in the order they appear in the document |
| Vault.MergeAppend | Classes/Passwords.cs:99-116 | merging two documents' entries at once is merging them one after the other |
| Vault.MergeKnown | Classes/Passwords.cs:104-115 | entries already present add nothing |
| Vault.SyncIdempotent | Classes/Passwords.cs:92-121 | syncing the same document a second time changes nothing |
| Vault.Contains | Classes/Passwords.cs:104-114 | the `exists` flag is set exactly when some entry has the same service, username and password |
| Vault.SyncOne | Classes/Passwords.cs:104-115 | one record: a new entry at the end exactly when no entry has its service, username and password; old entries stay, no object twice |
| Vault.SyncRecords | Classes/Passwords.cs:102-116 | one group's records, up to the first `null` one, are merged into the list's triples; it reports completion exactly when the group has no `null` record; old entries stay, added ones are new objects, no object twice |
| Vault.SyncGroup | Classes/Passwords.cs:99-116 | one turn of the outer loop merges one group; when it completes, merging the rest of the groups afterwards is merging all of them from this one; when it stops at a `null`, the merge is already final |
| Vault.SyncGroups | Classes/Passwords.cs:99-117 | the groups are merged up to the first `null` list or record, with the same guarantees |
| Vault.Passwords.Sync | Classes/Passwords.cs:92-121 | the new triples are the old ones merged with the document's entries (up to the first `null`); the added entries are new objects; nothing changes for an unparsable document; the master password stays |
| Vault.Passwords.ChangeMainPassword | Classes/Passwords.cs:90 | the master password becomes the stored hash of the new password, which then verifies when not blank; entries stay |
| Vault.Passwords.CheckMainPassword | Classes/Passwords.cs:140-144 | true when no master password is set, otherwise exactly when the password verifies |
| Vault.Passwords.Clear | Classes/Passwords.cs:146-150 | the master password is re-hashed and the list is emptied |
| Hasher.Frame | Classes/Hasher.cs:18-20 | the stored bytes are the 16-byte salt followed by the 32-byte key |
| Hasher.StoredHash | Classes/Hasher.cs:11-23 | the Base64 decodes to salt ++ PBKDF2 key and is 64 characters long |
| Hasher.ArrayCopy | Classes/Hasher.cs:19-20 | the target range takes the source range and the rest of the target is unchanged |
| Hasher.Get | Classes/Hasher.cs:11-23 | the result is the stored form of salt and key for the given salt |
| Hasher.Verify | Classes/Hasher.cs:25-44 | true exactly when neither string is blank, the hash decodes to 48 bytes, and the re-derived key equals the stored key; false on a decode failure |
| Hasher.GetThenVerify | Classes/Hasher.cs:11-44 | a non-blank password verifies against a hash made from it |
| Hasher.BlankPasswordNeverVerifies | Classes/Hasher.cs:27 | a blank password or blank candidate never verifies |
| UI.Edit | Classes/UI.cs:68-81 | a key changes the buffer by at most one character: Backspace drops the last one, a non-control character is added only below the maximum (`-1` is none), anything else leaves the buffer as it was |
| UI.KeyEcho | Classes/UI.cs:68-83 | a key writes exactly the change it makes to the buffer: a star (hidden) or the character for an added one, the rubout sequence for a dropped one, nothing otherwise |
| UI.GetLine | Classes/UI.cs:59-88 | the line is the buffer at the first Enter finding it at least `minLength` long, within `maxLength`; the echo is the prompt, the keys' echoes and a newline |
| UI.UnacceptedExtend | Classes/UI.cs:67 | a key that is not an accepting Enter keeps the loop going |
| UI.KeyStep | Classes/UI.cs:64-84 | one more key edits the buffer and the echo by that key alone |
| UI.BufferWithinMax | Classes/UI.cs:78-79 | the buffer never grows past a set maximum |
| UI.BufferPrintable | Classes/UI.cs:76-80 | no control character ever enters the buffer |
| UI.PlainTyping | Classes/UI.cs:76-82 | without Backspace or control keys and with no maximum, the line is exactly the typed characters |
| UI.HiddenEcho | Classes/UI.cs:73-82 | in hidden mode the echo is a run of whole stars and whole rubout sequences, never a typed character |
| UI.ConfirmAction | Classes/UI.cs:171-187 | the first Y or N decides (true for Y), every other key is skipped; the prompt is followed by a newline |
| UI.ValidatePasswordInput | Classes/UI.cs:151-169 | accepted exactly when no field is blank; otherwise the first blank field's message, in field order |
| Text.TrimStartDrops | Classes/UI.cs:230 | the result drops only leading whitespace and then starts with non-whitespace |
| Text.CsDiv | Classes/UI.cs:191 | C# truncating division bounds for a positive divisor |
| UI.PrintHeader | Classes/UI.cs:189-199 | the top border is always written; the call completes exactly when the title has at most 43 characters, and then writes the title line and, when asked, the bottom border and a blank line |
| UI.HeaderCentred | Classes/UI.cs:189-199 | a title of at most 43 characters is centred with the odd space on the right, and the title line is as wide as the borders |
| UI.HeaderTooWide | Classes/UI.cs:191-193 | a longer title makes one of the two `new string` calls throw once the top border is written (for 44 characters the padding is 0 and the right count is -1; from 45 on the padding is negative) |
| UI.QuoteEndAsWritten | Classes/UI.cs:227-228 | the scan as written stops at the first quote with no backslash right before it, or at the end of the line |
| UI.QuoteEndAsWrittenFirst | Classes/UI.cs:228 | every quote the scan passes has a backslash right before it |
| UI.NumberEnd | Classes/UI.cs:239-243 | the number run covers digits, '-' and '.' and stops before any other character |
| UI.Token | Classes/UI.cs:220-252 | a token is the next non-empty slice of the line, starting where the previous one ended |
| UI.TokenFails | Classes/UI.cs:225-229 | the step throws exactly at a quote after which the scan as written finds no closing quote |
| UI.TokenString | Classes/UI.cs:225-235 | a quoted token ends at the first later quote with no backslash before it, every quote inside it has one, and it is a key (cyan) iff the rest after it, trimmed, starts with ':', otherwise a value (green) |
| UI.TokenNumberRun | Classes/UI.cs:236-245 | a digit or '-' starts a yellow token over the longest run of digits, '-' and '.' |
| UI.ScanQuote | Classes/UI.cs:227-228 | the inner loop, with its test as written, ends where `QuoteEndAsWritten` does |
| UI.ScanNumber | Classes/UI.cs:239-243 | the inner loop ends where the number run does |
| UI.ReadToken | Classes/UI.cs:220-252 | one turn of the outer loop produces the token `Token` describes, with the scan as written |
| UI.Colorize | Classes/UI.cs:217-253 | the loop writes non-empty segments only, at most one per character |
| UI.ColorizeCovers | Classes/UI.cs:215-254 | the segments write a prefix of the line, and the whole line when the scan as written closes every string |
| UI.ColorizeStops | Classes/UI.cs:225-229 | a run that throws stops right after what it wrote, at a quote the scan as written never closes |
| UI.PrintColorizedLine | Classes/UI.cs:215-254 | the segments written are the tokenization of the line with the scan as written; what they write is the line itself, or, when the line throws, the prefix before the unclosed quote |
| VaultDocument.JsonEscape | Classes/Passwords.cs:61 | what the JSON writer puts between a string's quotes (`"` as `\u0022`, `\` as `\\`) holds no quote and is never shorter than the string |
| VaultDocument.JsonEscapeEnd | Classes/Passwords.cs:61 | the written content ends in a backslash exactly when the string does |
| UI.QuoteEndAsWrittenReaches | Classes/UI.cs:228 | over a stretch with no quote the scan as written reaches the next quote, and stops there unless a backslash precedes it |
| UI.ClosedUnlessTrailingBackslash | Classes/UI.cs:227-229 | wherever a string the writer wrote stands on a line, the scan as written from its opening quote finds its closing quote exactly when the string does not end in a backslash |
| UI.KeyValueMisread | Classes/UI.cs:215-229 | on every line made of any number of spaces, a quoted key of any length with no backslash before its closing quote, `: ` and the value `"\\"`, the value's scan as written runs to the end of the line and the colouriser throws at the value's opening quote |
| UI.IndentedValueMisread | Classes/UI.cs:215-229 | on the line `        "password": "\\"`, indented eight spaces as the written document puts a record's fields (Classes/Passwords.cs:61), the value's scan as written runs to the end of the line and the colouriser throws |
| UI.FailsAfterSpaces | Classes/UI.cs:220-224 | leading spaces are written one by one, so a run that throws after them throws from the start of the line |
| UI.EscapedBackslashMisread | Classes/UI.cs:227-229 | on the line `"\\"` the scan as written runs to the end of the line, the step throws and nothing is written, while the corrected step writes the whole line as a value |
| UI.ScansAgreeWithoutBackslash | Classes/UI.cs:228 | where no backslash occurs the scan as written and the corrected one agree |
| UI.QuoteEnd | Classes/UI.cs:228 | the corrected scan, where a backslash escapes the one character after it, stops at a closing quote or the end of the line |
| UI.CorrectedToken | Classes/UI.cs:220-252 | the step with the corrected scan: a token is still the next non-empty slice of the line |
| UI.QuoteEndSkipsEscape | Classes/UI.cs:228 | the corrected scan steps over any escape the writer produces without stopping |
| UI.QuoteEndFindsClose | Classes/UI.cs:228 | the corrected scan finds the closing quote of any string the writer wrote |
| UI.StringTokenIsWhole | Classes/UI.cs:225-234 | with the corrected scan, a line starting with a string the writer wrote yields that whole string as its first token |
| UpdateManager.EscapePathForBash | Classes/UpdateManager.cs:225 | the result starts and ends with a single quote |
| UpdateManager.EscapeWithoutQuotes | Classes/UpdateManager.cs:225 | a path without single quotes is only wrapped in a pair of them |
| UpdateManager.ReplaceWithoutQuotes | Classes/UpdateManager.cs:225 | `ReplaceQuotes` leaves a path without single quotes as it is |
| UpdateManager.EscapeLength | Classes/UpdateManager.cs:225 | the length is the path's plus 2 plus 3 per single quote |
| UpdateManager.ReplaceQuotesLength | Classes/UpdateManager.cs:225 | `ReplaceQuotes`, the `Replace` call: the replacement adds 3 characters per single quote |
| UpdateManager.UnreplaceReplace | Classes/UpdateManager.cs:225 | turning each `'\''` back into a quote undoes the replacement |
| UpdateManager.EscapeRoundTrip | Classes/UpdateManager.cs:225 | unescaping the inside of the quoted form gives the path back |
| UpdateManager.BashReadsPath | Classes/UpdateManager.cs:225 | bash reads the quoted form as one word equal to the path, whatever it contains |
| UpdateManager.Progress | Classes/UpdateManager.cs:99-113 | no percentage is reported exactly when the content length is 0 (unknown) |
| UpdateManager.ProgressBounds | Classes/UpdateManager.cs:113 | with 0 <= read <= total and total > 0, the percentage is within 0..100 and is 100 exactly when all bytes are read |
| UpdateManager.ProgressMonotone | Classes/UpdateManager.cs:113 | reading more never shows a smaller percentage |
| UpdateManager.DrawProgressBar | Classes/UpdateManager.cs:125-142 | it throws exactly when the filled length is negative; otherwise it writes the prefix, the filled cells in green, (short of a full bar) the green cap and dark-grey dashes, and the percentage in white |
| UpdateManager.FilledBounds | Classes/UpdateManager.cs:127-128 | for 0..100 the filled length is 0..29, and 29 only at 100 |
| UpdateManager.DrawThrows | Classes/UpdateManager.cs:128-131 | the bar is drawn for percentages from -3 up and throws from -4 down |
| UpdateManager.BarCells | Classes/UpdateManager.cs:131-137 | up to 29 filled cells, the bar is 29 cells: filled cells, then the cap, then dashes |
| UpdateManager.BarShape | Classes/UpdateManager.cs:125-142 | for 0..100 the whole output is the prefix, a 29-cell bar and the percentage right-aligned in two columns |

## Left out

- The JSON library (`JsonSerializer`) is not part of this model. A document is an already-parsed `Document`, and `None` stands for text that does not parse or parses to `null`. Services are kept as a list of groups in reading order. A service mapped to `null` and a `null` record are modelled. Duplicate keys, and strings given as JSON `null`, are not modelled.
- `ToString`'s `Dictionary` is modelled as groups in insertion order. That is the order .NET enumerates a dictionary that never had a removal.
- Crypto, FileManager, Manager and Program (encryption, file I/O, the menu loop, the session timer) are not part of this model.
- PBKDF2, Base64, the random salt and `CryptographicOperations.FixedTimeEquals` are parameters. Constant-time comparison cannot be stated.
- Case-insensitive matching folds ASCII letters only; `char.IsDigit` is ASCII only. Lengths count `char`s as Dafny sees them, not UTF-16 code units.
- `UI.IsKey`: `StartsWith(":")` is taken as ordinal; .NET's culture-sensitive comparison is not modelled.
- Console cursor visibility and colour state are not modelled. Output is the list of segments, each with the colour it is written in.
- `UI.GetLine`: the console would wait for more keys; when the keys run out the model answers `None`. The echo is assembled at the end as prompt + key echoes + newline, the order the console shows it.
- `UI.ConfirmAction`: running out of keys gives `None` in the same way.
- `Vault.Contains`, `Vault.SyncOne`, `Vault.SyncRecords`, `Vault.SyncGroup`, `Vault.SyncGroups`, `Vault.ReadRecords`, `Vault.ReadGroups`, `Vault.GroupOne`, `UI.ReadToken`, `UI.ScanQuote` and `UI.ScanNumber` are inner loops of the source, or the bodies of its loops, written as methods of their own; the source has them inline.
- `Vault.Passwords.RemoveMatching` is the overload `Remove(string type, string username)`; null arguments are not modelled, since the defaults are empty strings.
- List elements are never `null`; `PasswordData` objects and the master password are non-null.
- `UpdateManager.Progress`: the `long` overflow of `totalRead * 100` and the `(int)` cast are not modelled. The multiplication overflows once more than 2^63 / 100 bytes (about 92 petabytes) have been read, whatever length was announced. The cast changes the value only when the quotient passes 2^31 - 1, which takes a body far longer than announced. Below both bounds the model is exact.
- `UpdateManager.DrawProgressBar`: when it throws, `"\rProgress: ├"` has already been written; the model answers `None` and does not record that text.
- `VaultDocument.JsonEscape` models the two escapes the scan depends on, a quote and a backslash. The default encoder also writes backspace, tab, line feed, form feed and carriage return as `\b`, `\t`, `\n`, `\f` and `\r`, and `<`, `>`, `&`, `'`, `+`, the other control characters and non-ASCII characters as `\uXXXX`; the model keeps all of these as themselves. None of those escapes holds a quote or ends in a backslash, so the lemmas about the scan are unaffected.
- `UpdateManager.BashWord` covers words made of single-quoted parts and backslash escapes, which is all `EscapePathForBash` produces. Other unquoted characters are rejected rather than expanded.
- The download loop, the update script, process start and `Environment.Exit` are network and process control and are not part of this model.

## Findings

| source | as written | input that shows it | evidently intended | confidence | as-written member | corrected member |
|---|---|---|---|---|---|---|
| Classes/UI.cs:228 | the string scan treats a quote preceded by a backslash as escaped, even when that backslash is itself escaped | the line `"\\"`, which is how the JSON writer (Classes/Passwords.cs:61, quote written as `\u0022`, backslash as `\\`) writes a string holding one backslash, say a password ending in `\`: the scan runs to the end of the line and `Substring` at line 229 throws, also on the line `        "password": "\\"`, indented eight spaces, as the written document holds a record's password field | a backslash escapes the one character after it, so the quote after `\\` closes the string | not executed | UI.QuoteEndAsWritten, UI.EscapedBackslashMisread, UI.ClosedUnlessTrailingBackslash, UI.KeyValueMisread, UI.IndentedValueMisread | UI.QuoteEnd, UI.CorrectedToken, UI.QuoteEndFindsClose, UI.StringTokenIsWhole |
