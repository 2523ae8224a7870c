# A verified model of the `.properties` readers and writers

The repository implements one `.properties` key/value format three times:

- the C++ class `Properties` (`cpp/Properties.hpp`, `cpp/Properties.cpp`);
- the newer C API in `src/fileprop.c`;
- the older C API in `src/zprop.c`.

Each implementation has the same four parts:

- an escape codec;
- a line reader or key/value splitter;
- a flat slot array, where the key of pair `k` sits at index `2k` and its value (possibly NULL) at `2k + 1`;
- a writer of `key=value` lines.

This project models those parts in Dafny and proves what they do.

The layout:

- Each store is a class whose slot array is a `seq` field that its methods reassign.
- Every operation that loops in the source is a method with a loop and its invariants.
- Every method is proved against a specification function.
- Lemmas about those functions state the properties: round trips, what a lookup returns after an add or a remove, the error cases, and the shape every operation keeps.

Modules:

| file | module | what it holds |
|---|---|---|
| `options.dfy` | `Options` | `Option`, standing for a pointer that may be NULL |
| `seqs.dfy` | `Seqs` | sequence lemmas |
| `chars.dfy` | `Chars` | blanks, line breaks, separators, the terminator, trimming |
| `slots.dfy` | `Slots` | finding a key slot, cutting a pair out, shifting slots down |
| `cpp_text.dfy` | `CppText` | `Convert`, `ResolveString`, `IsEmpty`, `ReadLine`, and the line splitting of `AddProperty` |
| `cpp_properties.dfy` | `CppProperties` | the class `Properties`, with `Load` and `Save` over the file's text |
| `decimal.dfy` | `Decimal` | `%d` text, reading it back, comma-joined lists |
| `fileprop_text.dfy` | `FilePropText` | `_zp_convert` and `_zp_next_elem` on NUL-terminated `char` arrays |
| `fileprop.dfy` | `FileProp` | the `zprop` store, the typed adders and getters, `_zp_app_property` |
| `zprop.dfy` | `ZProp` | the `_zProp_` store |
| `zprop_io.dfy` | `ZPropIO` | `_zPropRead` and `_zPropWrite` |

Conventions:

- Files are strings: one `char` per byte.
- Allocation outcomes are parameters of the operations that allocate (`FileProp.Alloc`, `ZProp.Alloc`): whether `realloc` grows the array, and whether the string copy succeeds.
- Opening a file is a boolean parameter of `Load` and `Save` in the C++ model.

Two source behaviours worth knowing:

- The C++ `Replace`, `AddValueForType` and `Add<V>` return `false` on every path.
- The C++ `Load` also returns `false` after any read. Its loop reads until `get()` meets the end of the file, which sets the stream's failbit, and `Load` returns `!in.fail()`.
- The contracts state both behaviours as the source has them.

## Model

| member | source | states |
|---|---|---|
| CppText.Encode | cpp/Properties.cpp:80-94 | the escaped text is between one and two times as long as the value, and holds no line break, tab or form feed |
| CppText.DecodeWithoutBackslash | cpp/Properties.cpp:59-78 | `Convert` copies a text without backslashes unchanged |
| CppText.DecodeEscapeOf | cpp/Properties.cpp:59-94 | `Convert` undoes the escape `ResolveString` writes for any character but a backslash |
| CppText.DecodeEncode | cpp/Properties.cpp:59-94 | `Convert(ResolveString(s)) == s` for every value without a backslash |
| CppText.BackslashDoesNotRoundTrip | cpp/Properties.cpp:59-94 | a backslash is written as itself, so `\n` in a value reads back as a line feed; `\\` decodes to nothing |
| CppText.EncodeEnds | cpp/Properties.cpp:80-94 | a value that neither starts nor ends with a space is written without a blank at either end |
| CppText.AppendControl | cpp/Properties.cpp:66-71 | the `switch` after a backslash appends the control character for `t`, `f`, `r`, `n` and nothing otherwise |
| CppText.Convert | cpp/Properties.cpp:59-78 | the loop builds exactly the decoded text |
| CppText.WriteEscape | cpp/Properties.cpp:84-92 | the `switch` writes the escape of one character |
| CppText.ResolveString | cpp/Properties.cpp:80-94 | the loop writes exactly the escaped value after what was written before |
| CppText.IsEmpty | cpp/Properties.cpp:49-57 | true exactly when every character of the key is a blank |
| CppText.ReadLogicalLine | cpp/Properties.cpp:170-201 | the line one read returns holds no line break and does not start with a blank or comment start; the result is `false` exactly when the read stopped at the end of the file |
| CppText.CommentLineSkipped | cpp/Properties.cpp:178-192 | a comment line's line break does not end the read: the read goes on with the next physical line |
| CppText.ReadBlank | cpp/Properties.cpp:187-189 | a blank at the start of a line is skipped |
| CppText.ReadEmptyLine | cpp/Properties.cpp:178-185 | a line break before any kept character ends the read with an empty line (an unfolding step of `ReadLogical` that the loop proofs use) |
| CppText.ReadCommentStart | cpp/Properties.cpp:190-192 | `#` or `;` first on a line starts a comment (an unfolding step of `ReadLogical` that the loop proofs use) |
| CppText.ReadFirstKept | cpp/Properties.cpp:187-197 | any other first character is the first character of the line (an unfolding step of `ReadLogical` that the loop proofs use) |
| CppText.ReadInComment | cpp/Properties.cpp:178-197 | characters inside a comment are dropped until its line break (an unfolding step of `AfterComment` that the loop proofs use) |
| CppText.ReadLine | cpp/Properties.cpp:170-201 | the loop returns the line, the flag and the position the specification gives |
| CppText.FirstSplit | cpp/Properties.cpp:114-132 | where the key ends: the first `=`, `:`, or blank followed by a character that is neither blank nor separator |
| CppText.FirstSplitFirst | cpp/Properties.cpp:114-132 | no earlier position ends the key |
| CppText.ParsedKeyPlain | cpp/Properties.cpp:105-158 | a committed key is non-empty and holds no blank, `=` or `:` |
| CppText.ParseNoSplit | cpp/Properties.cpp:150-154 | a line without a split stores its blank-free text as a key with a nullptr value, or nothing if that text is empty |
| CppText.ParseEmptyKey | cpp/Properties.cpp:114-117 | a split before any key character adds nothing |
| CppText.ParseSplit | cpp/Properties.cpp:114-157 | after the first split the rest of the line, trimmed at both ends, is the value (an unfolding step of `ParseLine` that the loop proofs use) |
| CppText.SplitAtFirstSeparator | cpp/Properties.cpp:114-157 | only the first separator counts; later `=` and `:` belong to the value |
| CppText.SplitAtBlank | cpp/Properties.cpp:124-129 | `key value` splits at the blank |
| CppText.BareKey | cpp/Properties.cpp:150-154 | `flag` alone is a key with a nullptr value |
| CppText.LeadingSeparator | cpp/Properties.cpp:114-117 | a line that starts with `=` or `:` adds nothing |
| CppProperties.ReplaceSlot | cpp/Properties.cpp:213-222 | erasing a slot and inserting at the same place overwrites that slot only, and keeps the store well formed |
| CppProperties.Lookup | cpp/Properties.cpp:282-288 | the value found is the value slot of a pair with the key; a key no pair has gives nullptr |
| CppProperties.LoadFromWellFormed | cpp/Properties.cpp:239-252 | loading any text appends only whole pairs with a key |
| CppProperties.Properties.IndexOf | cpp/Properties.cpp:39-47 | the even index of the first equal key, or `UINT32_MAX` exactly when there is none |
| CppProperties.Properties.Contains | cpp/Properties.cpp:34-37 | true exactly when some key slot holds the key |
| CppProperties.Properties.AddValue | cpp/Properties.cpp:96-103 | appends the key, or for a value nullptr if it is empty and its decoded text otherwise |
| CppProperties.Properties.TrimTrailing | cpp/Properties.cpp:140-147 | the loop leaves the text without its trailing blanks |
| CppProperties.Properties.AddProperty | cpp/Properties.cpp:105-158 | appends exactly the slots of the parsed line: nothing, or a key and its value; the store stays well formed |
| CppProperties.Properties.RemoveRange | cpp/Properties.cpp:160-168 | the slots from `begin` up to `end` are erased and the rest keep their order |
| CppProperties.Properties.Remove | cpp/Properties.cpp:203-211 | true exactly when the key is present; then only the first pair with it is cut out |
| CppProperties.Properties.Replace | cpp/Properties.cpp:213-222 | only the value slot of the first pair with the key changes (an empty value gives nullptr); the result is always `false` |
| CppProperties.Properties.AddValueForType | cpp/Properties.cpp:224-232 | the pair is appended only when the key is absent and not blank, otherwise nothing changes; the result is always `false` |
| CppProperties.Properties.AddString | cpp/Properties.hpp:220-223 | `Add` with a string: `to_string` is the identity; the store stays well formed |
| CppProperties.Properties.AddChar | cpp/Properties.hpp:45-49 | `Add` with a character: `to_string` gives the one-character string; the store stays well formed |
| CppProperties.Properties.Size | cpp/Properties.cpp:234-237 | twice the size is the slot count |
| CppProperties.Properties.GetValue | cpp/Properties.cpp:282-288 | the lookup: nullptr for a missing key and for a valueless one |
| CppProperties.Properties.Get | cpp/Properties.hpp:389-391 | `operator[]` returns what `GetValue` returns |
| CppProperties.Properties.GetBool | cpp/Properties.hpp:350-356 | true exactly when the value, read through its `c_str()` up to the first terminator, is `true` or starts with `1`; false for a missing or valueless key |
| CppProperties.TruthyStopsAtNul | cpp/Properties.hpp:350-356 | characters after a terminator inside a value do not change what `GetBool` returns |
| CppProperties.Properties.GetConverted | cpp/Properties.hpp:288-303 | the typed getters return the default for nullptr and otherwise the conversion of the value read through the `const char*` `GetValue` returns |
| CppProperties.Properties.Load | cpp/Properties.cpp:239-252 | an open file appends the pairs of all its logical lines; the result is always `false`; the store stays well formed |
| CppProperties.Properties.Save | cpp/Properties.cpp:254-272 | writes `key=` and the escaped value of each pair in order, a line break between pairs and none after the last |
| CppProperties.PairLineParses | cpp/Properties.cpp:254-272 | the line written for a pair whose key is plain and whose value has no backslash and no space at either end splits back into that key and value, an empty value coming back as nullptr |
| CppProperties.LoadSaved | cpp/Properties.cpp:239-272 | loading, from any position, a text holding a saved store there gives the store back pair by pair |
| CppProperties.SaveLoad | cpp/Properties.cpp:239-272 | `Save` then `Load` into an empty store gives the same pairs in the same order, each empty value as nullptr; a store with no empty value comes back unchanged |
| CppProperties.ReloadedAllUnchanged | cpp/Properties.cpp:239-272 | saving and loading changes nothing in a store without empty values |
| CppProperties.WellFormedAfterRemove | cpp/Properties.cpp:203-211 | cutting a pair out keeps the store well formed |
| Decimal.FormatNatValue | src/fileprop.c:273-274 | the `%d` digits are digits, without a leading zero, and denote the number |
| Decimal.ParseFormat | src/fileprop.c:273-274 | the `%d` text of any integer reads back as that integer |
| Decimal.FormatChars | src/fileprop.c:273-274 | a `%d` text holds only digits and `-`: no comma to split geometry values at, no backslash for `_zp_convert`, no terminator |
| Decimal.SplitJoin | src/fileprop.c:311-320 | cutting a comma-joined list at its commas gives the parts back when no part holds a comma |
| Decimal.GeometrySplits | src/fileprop.c:311-320 | a stored geometry value cuts back into the texts of its integers, each of which reads back as its integer |
| FilePropText.Unescape | src/fileprop.c:450-470 | the decoded text is never longer than the input, so decoding in place is safe |
| FilePropText.UnescapeNoNul | src/fileprop.c:450-470 | decoding never brings in a terminator |
| FilePropText.UnescapePlain | src/fileprop.c:450-470 | text without backslashes decodes to itself |
| FilePropText.UnescapeAt | src/fileprop.c:455-467 | one decoder step: a plain character is kept, an escape gives its character, a trailing backslash ends the text |
| FilePropText.EscapedBackslashKept | src/fileprop.c:457-463 | `\\` decodes to one backslash and an unknown escape keeps its character, unlike the C++ decoder |
| FilePropText.UnescapeCppEncode | src/fileprop.c:450-470 | what the C++ encoder writes for a backslash-free value decodes back to that value |
| FilePropText.StrLen | src/fileprop.c:452 | the length is the position of the terminator |
| FilePropText.Convert | src/fileprop.c:450-470 | in place: the buffer starts with the decoded text and a terminator, and the rest of the buffer is untouched |
| FilePropText.FirstSeparatorShape | src/fileprop.c:417-419 | the key ends at the first `=` or `:` |
| FilePropText.NextElem | src/fileprop.c:412-426 | the element is moved to the front of the buffer and returned trimmed; a key ends at the first separator, a value at the terminator; the new position is one past where it stopped |
| FileProp.ContainsAsWrittenAlwaysTrue | src/fileprop.c:88-91 | comparing the index with `INT32_MAX` is true for every key, present or not |
| FileProp.AddAsWrittenDropsNewKeys | src/fileprop.c:255-266 | as written, `zp_add` of a new key fails and changes nothing; with `zp_contains` corrected the pair is appended |
| FileProp.AddedThenLookup | src/fileprop.c:240-266 | after a successful add the key reads back as the decoded value |
| FileProp.BoolRoundTrip | src/fileprop.c:144-148 | `zp_getb` reads back what `zp_addb` stored |
| FileProp.CharRoundTrip | src/fileprop.c:234-238 | `zp_getc` reads back what `zp_addc` stored, except a backslash, which the decoder drops |
| FileProp.IntRoundTrip | src/fileprop.c:273-274 | the `%d` text is stored unchanged and reads back as the integer |
| FileProp.Strdup | src/fileprop.c:480 | a fresh terminated copy |
| FileProp.Store.IndexOf | src/fileprop.c:437-448 | the even index of the first key equal to `key`, or -1; a NULL key is never found |
| FileProp.Store.ContainsAsWritten | src/fileprop.c:88-91 | `zp_contains` as written |
| FileProp.Store.Contains | src/fileprop.c:88-91 | `zp_contains` corrected: true exactly when a key slot holds the key |
| FileProp.Store.AddValue | src/fileprop.c:472-495 | one slot appended: NULL for a NULL or empty string, else a copy, decoded for a value; a failed copy of a value takes the key slot back too |
| FileProp.Store.Replace | src/fileprop.c:240-253 | only the value slot of the first pair with the key changes, to the decoded copy or NULL |
| FileProp.Store.AddPair | src/fileprop.c:261-263 | the key is appended and then the value, which is tried only after the key went in; a success adds exactly two slots |
| FileProp.PairAddedLeavesLoneKey | src/fileprop.c:472-491 | a success adds two slots; exactly one slot, the key's, is left when the key went in and the array could not grow for the value, and a failed value copy takes the key back |
| FileProp.Store.AddAsWritten | src/fileprop.c:255-266 | `zp_add` as written: a blank or NULL key is refused, every other key goes to `_zp_replace` |
| FileProp.Store.Add | src/fileprop.c:255-266 | `zp_add` corrected: a present key gets the new value, a new key is appended with it; a success keeps the slot count even |
| FileProp.AddedLeavesLoneKey | src/fileprop.c:255-266 | `zp_add` leaves an odd slot count exactly when a new non-blank key went in and the array could not grow for its value; the lone key then stays and the result is false |
| Slots.CutPair | src/fileprop.c:114-116 | moving every slot after a pair down two places and dropping the last two leaves exactly the slots without that pair, in order (the intended reading of the unsequenced shift, see Left out) |
| FileProp.Store.Remove | src/fileprop.c:107-119 | true exactly when the key is present; then the first pair with it is cut out and the later slots keep their order, taking the shift by two as intended (see Left out) |
| FileProp.Store.RemoveAll | src/fileprop.c:121-131 | no slot is left |
| FileProp.Store.Size | src/fileprop.c:352-355 | twice the size is the slot count |
| FileProp.Store.Get | src/fileprop.c:133-142 | the value slot of the first pair with the key, or NULL |
| FileProp.Store.Getb | src/fileprop.c:144-148 | true for `true` or a value starting with `1` |
| FileProp.Store.Getc | src/fileprop.c:234-238 | the first character, or the terminator for NULL |
| FileProp.Store.Addb | src/fileprop.c:268-271 | the corrected `zp_add` (see Findings) of `1` or `0` |
| FileProp.Store.Addc | src/fileprop.c:322-332 | the corrected `zp_add` of NULL for the terminator, of the one-character string otherwise |
| FileProp.Store.Addi | src/fileprop.c:273-274 | the corrected `zp_add` of the `%d` text |
| FileProp.Store.AddGeometry | src/fileprop.c:296-320 | the corrected `zp_add` of four comma-joined integers for a rectangle and two for a point or size |
| FileProp.Store.AppProperty | src/fileprop.c:428-435 | appends the trimmed text before the first separator as the key, then the trimmed, decoded rest of the line as its value; a success adds exactly two slots |
| FileProp.KeyCut | src/fileprop.c:412-426 | the first `_zp_next_elem` on a line returns its trimmed key, stops one past the first separator, and leaves the rest of the line in the buffer |
| FileProp.ValueCut | src/fileprop.c:412-426 | the second `_zp_next_elem` returns the rest of the line, trimmed |
| FileProp.SplitAtFirstSeparator | src/fileprop.c:412-426 | in `key=value` the key is cut at the `=`, and the value keeps any later separators |
| ZProp.Lookup | src/zprop.c:139-150 | a value is found exactly when the key is not NULL and some key slot holds it |
| ZProp.PropAdded | src/zprop.c:156-171 | `zAddProp` either leaves the store unchanged or appends two slots; running out of memory changes nothing |
| ZProp.LookupAfterAdd | src/zprop.c:139-171 | after a pair is appended, a key already present still reads as its old value, the new key reads as the new value, and other keys are unaffected |
| ZProp.LookupAfterRemove | src/zprop.c:92-113 | removing one key does not change what any other key reads as |
| ZProp.RemovedKeyGone | src/zprop.c:92-113 | in a store without duplicate keys a removed key reads as NULL |
| ZProp.RemoveShowsDuplicate | src/zprop.c:92-113 | with two pairs for one key, removing it uncovers the second value |
| ZProp.PropStore.AddKeyOrValue | src/zprop.c:205-217 | on success exactly one slot more, holding a copy of the string; on failure the count is as before |
| ZProp.PropStore.AddProp | src/zprop.c:156-171 | a NULL key changes nothing; otherwise the key and value are appended, and the key is taken back if the value cannot be copied |
| ZProp.PropStore.GetValue | src/zprop.c:139-150 | the value of the first pair with the key; NULL for a NULL or missing key |
| ZProp.PropStore.ContainsKey | src/zprop.c:83-86 | true exactly when `zGetValue` finds a value |
| ZProp.PropStore.RemoveKey | src/zprop.c:92-113 | true exactly when the key is present; then only the first pair with it is cut out, the later slots moved down in order |
| ZProp.PropStore.GetCountProp | src/zprop.c:177-181 | twice the count is the slot count |
| Chars.CString | src/zprop.c:254-255 | the copy holds no terminator and is the buffer itself when the buffer holds none |
| Chars.CStringStopsAtNul | src/zprop.c:254-255 | a string read through its `char*` ends at the first terminator, whatever follows it |
| ZPropIO.PropRead | src/zprop.c:223-368 | the loop's error and store are exactly what the character-by-character specification gives |
| ZPropIO.ReadShape | src/zprop.c:244-360 | a store that is read has whole pairs of C strings |
| ZPropIO.AddCopied | src/zprop.c:325-330 | the copied characters are terminated and added to the store as one slot |
| ZPropIO.PutChar | src/zprop.c:338-359 | `copy_bt` is allocated with room for 1024 characters, or grown by 256 when full, and the character is stored after those already copied |
| ZPropIO.PropWrite | src/zprop.c:392-413 | the loop writes exactly `key=value` per pair, with a line feed between pairs |
| ZPropIO.ReadWriteRoundTrip | src/zprop.c:223-413 | reading what `_zPropWrite` wrote gives the same slots back, for keys and values the format can carry; this is the whole-text reader, so it does not cover a text whose length is a multiple of 256, the empty store included (see Left out) |
| ZPropIO.EmptyKeyIsSyntax | src/zprop.c:312-323 | a separator with no key before it is a syntax error |
| ZPropIO.BareKeyIsSyntax | src/zprop.c:277-287 | a line break while a key is being copied is a syntax error |
| ZPropIO.BareKeyAtEndDropped | src/zprop.c:245-266 | a key without separator at the end of the file is dropped without an error |
| ZPropIO.CommentLineSkipped | src/zprop.c:290-304 | after a line break, a line starting with `#`, `;` or `!` is skipped whole |
| ZPropIO.LeadingBlankSkipped | src/zprop.c:290-295 | after a line break, blanks before a key are skipped |
| ZPropIO.FirstLineKeepsLeadingMark | src/zprop.c:234 | on the first line a leading blank or comment mark is part of the key, because `_newLine_` starts false |
| ZPropIO.KeyChars | src/zprop.c:310-359 | key characters are copied, blanks among them |
| ZPropIO.ValueChars | src/zprop.c:338-359 | value characters are copied up to the line break, separators and blanks among them, with no trimming or decoding |

## Left out

- File and stream I/O are left out: opening, reading and writing files, `errno`, and the ASCII and Unicode name variants. A file is its text. `Load` and `Save` take whether the file opened as a parameter.
- `_zPropRead` reads in 256-byte chunks; the model reads the whole text as one sequence. In C a file whose length is a multiple of 256, the empty file included, ends with a `_read` that returns 0. The loop then processes stale buffer bytes and never meets its stop condition. The model does not cover that path.
- Running out of memory inside `_zPropRead` is left out: its allocations are assumed to succeed. The store operations take allocation outcomes as parameters.
- Shrinking `realloc` calls are assumed to succeed: `zp_remove` returns what the shrink returns, and the model returns true.
- Numbers through library calls are left out: the C++ `stoi`/`stod` family, `strtol`/`strtod`, and the `%f` and `%u` adders. They are floating point or opaque library routines. Only `%d` is modelled.
- `zp_getd`'s locale rewriting, `zp_getv` and `_zp_value_geometry` are left out: they are floats, varargs, and a parser in a header that is not part of this model.
- Helpers whose headers are not part of this model are taken with their evident meaning: `_zp_strtrim` trims spaces and tabs, `_zp_equals` compares two non-NULL strings, `_zp_is_empty` is true for NULL or all-blank text, and `_zp_strdup` copies a C string.
- `_zp_app_property` calls `_zp_add_value` with two arguments where it takes three. The model passes `false` for the key and `true` for the value.
- FileProp.Store.Remove, Slots.CutPair: the shift at src/fileprop.c:115 reads `i` on its left side and increments it on its right side with no sequence point between, which is undefined behaviour in C. The model takes the evidently intended shift by two places, as `zRemoveKey` in src/zprop.c writes it, and does not model the shift by one that right-first evaluation would give.
- FileProp.Store.Add, FileProp.Store.AddPair, FileProp.Store.AppProperty: when the key slot goes in and `realloc` then fails for the value slot, the key stays and the slot count becomes odd (FileProp.AddedLeavesLoneKey, FileProp.PairAddedLeavesLoneKey). The model keeps this as written, and every later store operation requires an even count. So the model says nothing about the misaligned pairs C would then read. A failed value copy, by contrast, takes the key back.
- FileProp.Store.AppProperty: requires a separator in the line. Without one, `_zp_next_elem` sets the position one past the terminator, and the second call reads past the end of the line.
- `_zp_read` and `_zp_write`, which read and write the lines of the newer C API's files, are not modelled. They call the line helpers in `fileio.h`, which are not part of this model.
- Memory management is left out: destructors, `zp_free`, `zFreeProp`, and the dangling store `_zPropRead` leaves on an error.
- Printing is left out: `Print`, `zp_print` and `zPrintProp`.
- NULL store arguments are left out: every store operation works on an existing store.
- `zAddProp` with a NULL value is left out: `_strdup(NULL)` is undefined.
- ZProp.PropStore.AddProp: a failed copy of the value leaves the count as before, assuming the shrinking `realloc` succeeds.
- FileProp.Store.AddValue: a failed copy of a value takes back the key slot before it; the model requires that such a slot exists, as it always does when called from `zp_add`.
- FileProp.Store.Addb, FileProp.Store.Addc, FileProp.Store.Addi, FileProp.Store.AddGeometry: built on the corrected `Store.Add`, so for a key not yet in the store they append the pair; as written they call the faulty `zp_add`, which stores nothing for a new key and fails (FileProp.AddAsWrittenDropsNewKeys, Findings).
- CppProperties.Properties.Save: stream failure part-way through writing is not modelled; the result is whether the file opened.
- CppProperties.SaveLoad: the round trip is stated for plain keys and values without backslashes or end spaces, because the writer does not escape `=`, `:`, blanks, a leading `#` or `;`, or backslashes, and the reader trims and unescapes; other stores do not come back as they were.

## Findings

| source | as written | input that shows it | evidently intended | confidence | as-written member | corrected member |
|---|---|---|---|---|---|---|
| src/fileprop.c:88-91 | `zp_contains` compares `_zp_indexof`'s result with `INT32_MAX`, an odd number that an index (-1 or even) never equals, so it is true for every key | `zp_add` of any key not in the store: `zp_contains` says present, `_zp_replace` finds no pair and fails, and the pair is never added | compare with -1, so that a new key is appended | high (not executed) | FileProp.ContainsAsWrittenAlwaysTrue, FileProp.AddAsWrittenDropsNewKeys, FileProp.Store.AddAsWritten | FileProp.Store.Contains, FileProp.Store.Add, FileProp.Store.Addb, FileProp.Store.Addc, FileProp.Store.Addi, FileProp.Store.AddGeometry |
