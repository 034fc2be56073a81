# A verified model of Clink's core

Clink extends the Windows command prompt, cmd.exe, with a Readline line editor. This project is a Dafny model of the parts of Clink that compute values rather than talk to Windows, with proofs of the properties their code promises. Each part is its own module, one per file.

- **Paths and strings.**
  - `Path` and `PathNormalise` model `path.cpp`. Its queries (directory, name, extension, drive, root, UNC) work on the characters of a C string. Its edits (`append`, `join`, `to_parent`, `maybe_strip_last_separator`, `normalise`) work on a string buffer.
  - `Str` models that buffer, `str_impl` of `str.h`, as a class over an array. It also models `char_count` for UTF-8 and UTF-16.
  - `DebugHeap` models the bounded copy and concatenation helpers.
  - `Common` holds shared helpers: `Option`, C strings and fixed-width integers.
- **Command-line text.**
  - `CmdTokenisers` models the table-driven state machine that splits a cmd.exe line into commands and words.
  - `Doskey` models doskey macro expansion: the output stream, `$` tags, argument collection and the line reader.
  - `HostModule` models the host's paste CR/LF stripping and cursor word bounds.
  - `Os` models wildcard detection, `%NAME%` expansion with cursor adjustment, and FILETIME conversion.
- **History and suggestions.**
  - `HistoryDb` models the history size limit, the history-expansion quote test, line identifiers and line breakers.
  - `HistSearch` models readline's `history_search` family: string and pattern search, both directions, anchored or not.
  - `Suggest` models the suggestion list and its generation counter.
- **Matching and display.**
  - `Wildmatch` models the glob matcher.
  - `MatchesLookaside` models the packed match records and the lookaside table.
  - `DisplayMatches` models the row buffer of the match display, filename padding and the exact-match test.
  - `TextList` models the popup list: index wrap-around, column widths and scrolling.
- **Terminal and prompt.**
  - `TerminalIn` models the console input side: key events to xterm sequences and the input ring buffer.
  - `Ecma48` models SGR handling into console attributes and the xterm input queue.
  - `Prompts` models tagged prompts and the expansion of cmd.exe's `PROMPT` codes.
  - `SessionStreams` models in-memory session streams with binary and text modes.
  - `Autorun` models finding, removing and adding Clink's entry in cmd.exe's AutoRun value.

Operations that change state in place are methods of classes with `modifies` frames. Examples are the string buffer, the suggestion list, the ring buffers, the streams, the popup window and the column widths. Their `ensures` tie the new state to a specification function. Pure code is modelled as functions, with lemmas relating each function to a reference definition, an inverse or an invariant.

Calls into the operating system become parameters or are left out:

- the environment (a map);
- the registry value (an `Option<string>`);
- allocator success (a `bool`);
- the UTF-8 encoding of a key (a byte sequence);
- the `fnmatch` matcher (a function);
- the date, time, directory and similar values of a prompt (an environment record).

## Model

| member | source | states |
|---|---|---|
| DebugHeap.CchCopy | clink/core/src/debugheap.cpp:774-787 | With max 0 nothing is written; otherwise the first Min(max-1, strlen(from)) characters of from are copied, a NUL follows them, and the rest of the buffer is untouched. |
| DebugHeap.CchCat | clink/core/src/debugheap.cpp:789-808 | The existing length is clamped to max-1, from is appended up to max-1 characters, the buffer is NUL-terminated at the returned length, and nothing before the old end or after the terminator changes. |
| HostModule.StripCrlf | clink/app/src/host/host_module.cpp:88-115 | The C string left in the buffer is exactly Strip of the old one, and the bytes after the new terminator keep their old values. |
| HostModule.StripUnfold | clink/app/src/host/host_module.cpp:95-112 | Strip consumes one character at a time, threading the "previous was CR/LF" flag. |
| HostModule.StripAppend | clink/app/src/host/host_module.cpp:95-112 | Stripping a concatenation strips each part, the second starting from the flag the first ends with. |
| HostModule.StripSnoc | clink/app/src/host/host_module.cpp:95-112 | One more input character extends the output by what that character alone produces. |
| HostModule.StripShorter | clink/app/src/host/host_module.cpp:88-115 | The stripped line is never longer than the input, so the in-place rewrite never overtakes its reader. |
| HostModule.StripHasNoCrlf | clink/app/src/host/host_module.cpp:97-110 | No CR or LF survives stripping. |
| HostModule.StripDeletes | clink/app/src/host/host_module.cpp:97-110 | With a setting of 0 or less, stripping deletes the CR/LF characters and keeps everything else in order. |
| HostModule.StripPlain | clink/app/src/host/host_module.cpp:97-110 | A line without CR/LF comes out unchanged. |
| HostModule.StripRun | clink/app/src/host/host_module.cpp:104-109 | With a positive setting a non-empty run of CR/LF alone becomes exactly one space. |
| HostModule.StripRunAfter | clink/app/src/host/host_module.cpp:104-109 | A run of CR/LF that continues an earlier run adds nothing. |
| HostModule.StripReplacesRun | clink/app/src/host/host_module.cpp:97-110 | With a positive setting, a run of CR/LF between two CR/LF-free pieces is replaced by exactly one space. |
| HostModule.StripIsCString | clink/app/src/host/host_module.cpp:114 | Stripping a C string gives a C string: no NUL is introduced. |
| HostModule.GetWordBounds | clink/app/src/host/host_module.cpp:186-217 | left <= cursor <= right; the character before left and the one at right are the delimiter (a quote after an odd number of quotes, else a space) unless at the ends; no delimiter lies between left and right. |
| HistoryDb.GetMaxHistory | clink/lib/src/history_db.cpp:93-100 | The limit is always between 1 and 999999; a configured value in that range is kept, and 0, negatives and oversize values give 999999. |
| HistoryDb.HistoryExpandControl | clink/lib/src/history_db.cpp:105-138 | Settings of 1 or less answer setting <= 0. Otherwise the answer is the setting's test (2: single quotes, 3: double quotes, 4: either, any other: false) on the quote state of the first markerPos characters, stopping at the end of the line. As written, every quote met switches the state, including a quote of the other kind inside a quoted run (see Findings). |
| HistoryDb.ApostropheLeavesDoubleQuotes | clink/lib/src/history_db.cpp:121-126 | With the loop as written, an apostrophe inside double quotes switches the state to single quotes, so mode 3 does not protect a marker in `"it's !!`. |
| HistoryDb.OneQuoteKindAgrees | clink/lib/src/history_db.cpp:121-126 | In text that uses only one kind of quote, the quote state as written and the corrected one agree, and are either no quote or that quote. |
| HistoryDb.CorrectedInsideQuote | clink/lib/src/history_db.cpp:121-135 | With the corrected state, text after an opening quote that does not contain the matching closer is inside that quote, whatever other quotes it holds. |
| HistoryDb.LineId | clink/lib/src/history_db.cpp:197-209 | A packed id fits in 32 bits and is never 0: the offset field holds the low 29 bits of the offset, the bank index is 0 and the active bit is 1. |
| HistoryDb.LineIdRoundTrip | clink/lib/src/history_db.cpp:199-206 | An offset below 2^29 comes back unchanged from the offset field. |
| HistoryDb.IsLineBreaker | clink/lib/src/history_db.cpp:646-649 | A byte ends a history line exactly when it is NUL, LF or CR. |
| Os.HasWildcard | clink/core/src/os.cpp:475-490 | A null path has no wildcard; otherwise the answer is true exactly when some character is `*`, `?`, `<`, `>` or `"`. |
| Os.NextPercentFinds | clink/core/src/os.cpp:837-838 | The scan for the next '%' stops at a '%' (or the end) and passes none. |
| Os.NextPercentIs | clink/core/src/os.cpp:837-838 | Any index that is a '%' (or the end) with no '%' before it is where the scan stops. |
| Os.NotExpandedCopies | clink/core/src/os.cpp:828-890 | When no name is substituted, the output of expand_env is its input exactly. |
| Os.NotExpandedKeepsPoint | clink/core/src/os.cpp:868-875 | With the adjustment as written, the point only moves when a name is substituted. |
| Os.NotExpandedKeepsCorrectedPoint | clink/core/src/os.cpp:868-875 | With the corrected adjustment, the point only moves when a name is substituted. |
| Os.PlainTextCopied | clink/core/src/os.cpp:835-842 | Text without '%' is copied unchanged and nothing is reported as expanded. |
| Os.UndefinedCopied | clink/core/src/os.cpp:857-884 | With no variable defined, every %NAME% and every "%%" is copied literally and nothing is expanded. |
| Os.SingleVariable | clink/core/src/os.cpp:857-866 | A lone %NAME% with NAME defined expands to exactly its value and reports an expansion. |
| Os.PointBeforeUnchanged | clink/core/src/os.cpp:868-875 | A point at or before the first '%' is never moved. |
| Os.PointEscapesOutput | clink/core/src/os.cpp:868-875 | As written, with A = "xx" and B = "y", expanding "%A%%B%" with the point at 6 gives "xxy" and a point of 4, past the end of the output. |
| Os.CorrectedPointInOutput | clink/core/src/os.cpp:868-875 | With the point compared against output positions, a point no further past the output than input remains ends inside the output. |
| Os.CorrectedStep | clink/core/src/os.cpp:868-875 | One corrected round keeps the point non-negative and no further past the output than input remains. |
| Os.CorrectedPointWithinOutput | clink/core/src/os.cpp:868-875 | With the corrected adjustment, a point inside the input always ends inside the output. |
| Os.SkipToPercent | clink/core/src/os.cpp:837-838 | The iterator stops at the first '%' at or after `from`, or at the end, having passed no '%'. |
| Os.AdjustCursor | clink/core/src/os.cpp:868-875 | A point at or before the replaced span stays put, a point inside it or at its end moves to just after the value, and a point past it shifts by the change in length. |
| Os.StepIsItem | clink/core/src/os.cpp:835-884 | A pass is the text up to the next '%' followed by the %...% item there. |
| Os.ExpandItem | clink/core/src/os.cpp:844-884 | From a '%', the pass substitutes the value of a defined, non-empty, closed name (moving the point against the output position of the value) or copies the item literally (with its closing '%' when the name was undefined). |
| Os.ExpandRound | clink/core/src/os.cpp:835-884 | One pass of the outer loop emits exactly one round of the expansion and moves the point as that round does, with the corrected adjustment (see Findings): the point is compared with output positions. |
| Os.ExpandEnv | clink/core/src/os.cpp:828-890 | The output is the expansion of the input, the flag says whether any name was substituted, and the point (if any) is moved by the corrected adjustment; with nothing substituted, output and point are unchanged. |
| Os.ExpandRounds | clink/core/src/os.cpp:835-887 | The loop takes one round at a time and ends with the whole expansion, the expanded flag and the corrected point. |
| Os.FiletimeToTimeT | clink/core/src/os.cpp:1156-1172 | The result is -1 or a time between 0 and INT_MAX. |
| Os.TimeRoundTrip | clink/core/src/os.cpp:1164-1171 | A FILETIME that is t whole seconds (plus any fraction of a second) after the Unix epoch converts back to t, for every t up to INT_MAX. |
| Os.BeforeEpochIsInvalid | clink/core/src/os.cpp:1164-1169 | A FILETIME before the Unix epoch wraps around to a huge unsigned value and gives -1. |
| Str.RoundUp64 | clink/core/include/core/str.h:132 | The rounded size is a multiple of 64, at least the request and less than 64 above it. |
| Str.StoredSize | clink/core/include/core/str.h:73 | What the 15-bit m_size keeps of a rounded request: always below 0x8000, and the rounded size itself whenever that fits. |
| Str.Grown | clink/core/include/core/str.h:124-143 | reserve never shrinks the buffer; the new size is either the old size or the request rounded up to a multiple of 64. |
| Str.RoundUpMonotonic | clink/core/include/core/str.h:132 | A larger request never rounds to a smaller size. |
| Str.ReserveAsWritten | clink/core/include/core/str.h:124-143 | reserve as written: it succeeds exactly when the request fits or the buffer may grow, and the size it stores in the 15-bit m_size is always below 0x8000, equal to Grown whenever the rounded request is below 0x8000. |
| Str.ReserveSizeWraps | clink/core/include/core/str.h:124-143 | For every size, reserve as written of 0x8000 on a growable buffer reports success and stores size 0, while the rounded size 0x8000 it meant to store is larger than the old size. |
| Str.StrImpl.constructor | clink/core/include/core/str.h:388 | A new str<size, growable> holds the empty string in a buffer of exactly `size` characters. |
| Str.StrImpl.Reserve | clink/core/include/core/str.h:124-143 | The text and the growable flag are kept; the size becomes Grown(old size, growable, n); the result is true exactly when the buffer now holds n characters; the buffer is replaced only when the size changes (corrected, see Findings: rounded sizes of 0x8000 or more are refused). |
| Str.StrImpl.Length | clink/core/include/core/str.h:184-190 | The length is the number of characters before the terminator, always less than the size. |
| Str.StrImpl.Clear | clink/core/include/core/str.h:201-205 | The string becomes empty and keeps its buffer. |
| Str.StrImpl.Empty | clink/core/include/core/str.h:209-212 | True exactly when the string holds no characters. |
| Str.StrImpl.Truncate | clink/core/include/core/str.h:216-223 | A position at or beyond the size changes nothing; otherwise the text ends at that position; the buffer is kept. |
| Str.StrImpl.FirstOf | clink/core/include/core/str.h:227-231 | For NUL the result is the length; otherwise -1 exactly when c does not occur, else the index of its first occurrence. |
| Str.StrImpl.LastOf | clink/core/include/core/str.h:235-239 | For NUL the result is the length; otherwise -1 exactly when c does not occur, else the index of its last occurrence. |
| Str.StrImpl.At | clink/core/include/core/str.h:308-311 | The character at i within the length, NUL at and beyond it. |
| Str.StrImpl.From | clink/core/include/core/str.h:163-166 | The C string starting at `from` is the text from that position on. |
| Str.StrImpl.ConcatN | clink/core/include/core/str.h:265-289 | A null source appends nothing and fails. Otherwise the buffer is reserved for length + n + 1 (n is the source length when negative), the text gains the first Min(n, room) characters of the source, and the result is true exactly when nothing was cut off. The reserve is the corrected one (see Findings). |
| Str.StrImpl.ConcatCount | clink/core/include/core/str.h:270-288 | Past the null check: reserve with the corrected reserve (see Findings), then append as much of the first n characters as fits, reporting whether all of them did. |
| Str.StrImpl.PlaceCut | clink/core/include/core/str.h:276-288 | With the buffer kept, the text gains as much of the first n characters as the room left allows, and the result says whether all of them fit. |
| Str.StrImpl.Concat | clink/core/include/core/str.h:315-319 | operator<< appends a whole C string as concat with n = -1 does, through the corrected reserve (see Findings). |
| Str.StrImpl.Copy | clink/core/include/core/str.h:257-261 | copy leaves the first Min(\|src\|, size - 1) characters of src, after reserving for the whole of it with the corrected reserve (see Findings), and reports whether all of it fit. |
| Str.PlaceAt | clink/core/include/core/str.h:284 | The copy writes the text and a terminator at the given position and keeps everything before it. |
| Str.CharCount8 | clink/core/include/core/str.h:417-425 | char_count of a UTF-8 string is the number of bytes that are not continuation bytes (10xxxxxx), never more than the length. |
| Str.Utf8 | clink/core/include/core/str.h:421-422 | The UTF-8 encoding of a scalar value is 1 to 4 bytes: a lead byte followed by continuation bytes. |
| Str.LeadCountAppend | clink/core/include/core/str.h:417-425 | Counting works piecewise over a concatenation. |
| Str.CharCountOfUtf8 | clink/core/include/core/str.h:417-425 | On well-formed UTF-8, char_count is the number of code points encoded. |
| Str.CharCount16 | clink/core/include/core/str.h:427-440 | char_count of a UTF-16 string counts every unit except a low surrogate that follows a high one, never more than the length. |
| Str.CharCountOfUtf16 | clink/core/include/core/str.h:427-440 | On well-formed UTF-16, char_count is the number of code points encoded. |
| Path.LastSeparator | clink/core/src/path.cpp:32-39 | None exactly when the path has no separator; otherwise the index of a separator with none after it. |
| Path.RunStart | clink/core/src/path.cpp:47-55 | The start of the run of separators ending at i: every character from there to i is a separator and the one before it (if any) is not. |
| Path.DirectoryEnd | clink/core/src/path.cpp:42-79 | The directory part of the path is a prefix of it. |
| Path.NameStart | clink/core/src/path.cpp:287-298 | The name starts just after a separator, just after an "x:" drive prefix, or at 0, and holds no separator. |
| Path.DirectoryStripsTrailing | clink/core/src/path.cpp:47-69 | For d + separators + name (d not ending in a separator), the directory is d, or d plus its separator when d is a bare "x:". |
| Path.DirectoryOfRootedName | clink/core/src/path.cpp:47-62 | For a leading run of separators followed by a name, the directory keeps all but one of the separators, and at least one. |
| Path.DirectoryOfName | clink/core/src/path.cpp:72-78 | A path without separators has an empty directory, or just its "x:" prefix. |
| Path.DirectoryBeforeName | clink/core/src/path.cpp:42-79 | The directory ends at or before the name starts, with only separators between them. |
| Path.IsRoot | clink/core/src/path.cpp:312-333 | A root without a drive prefix consists of separators only. |
| Path.SkipSeparators | clink/core/src/path.cpp:329-330 | The scan passes only separators and stops at the end or at a non-separator. |
| Path.SkipName | clink/core/src/path.cpp:438-439 | The scan passes only non-separators and stops at the end or at a separator. |
| Path.RootHasNoName | clink/core/src/path.cpp:312-333 | A root not starting with a separator has no name component, and a rooted path that is not a root has a character that is not a separator. |
| Path.RootExamples | clink/core/src/path.cpp:301-333 | "", "e:", "e:/", "e:\", "/" and "\" are roots; "e:one", "e:/one", "/one" and "one" are not; "e:/one" and "\one" are rooted, while "e:", "e:one" and "" are not. |
| Path.ExtensionScanFinds | clink/core/src/path.cpp:256-272 | The scan ends with -1 or the last '.' after which no '.', space, separator or ':' occurs. |
| Path.GetExtension | clink/core/src/path.cpp:253-278 | The result is an extension start (a '.', not last, followed by no '.', space, separator or ':') exactly when one exists; otherwise the end of the string. |
| Path.ExtensionInName | clink/core/src/path.cpp:253-278 | The extension always lies inside the name component. |
| Path.ExtensionExamples | clink/core/src/path.cpp:253-278 | "one/two/three\filename.ext" gives 22; "..", "abc" and "./one/two" have no extension; ".ext" gives 0 and "filename..ext" gives 9. |
| Path.CompleteUnc | clink/core/src/path.cpp:424-457 | Two or more separators, a server name, a separator, a share name and a separator (then anything) make a complete UNC path. |
| Path.ServerOnlyIsIncomplete | clink/core/src/path.cpp:424-446 | "\\" followed by a server name and no separator is incomplete. |
| Path.GetDirectory | clink/core/src/path.cpp:212-217 | The string is truncated to its directory part, in the same buffer. |
| Path.GetDirectoryInto | clink/core/src/path.cpp:205-209 | The directory part of the input is appended to out, as much as fits, and the result says whether all of it did. |
| Path.GetDriveInto | clink/core/src/path.cpp:220-230 | Without an "x:" drive (x a letter) nothing changes and the result is false; otherwise "x:" is appended, as much as fits. |
| Path.GetDrive | clink/core/src/path.cpp:233-244 | Without a drive nothing changes and the result is false; otherwise the string keeps just "x:" and the result is whether the buffer size exceeds 2. |
| Path.GetExtensionInto | clink/core/src/path.cpp:247-250 | The extension (possibly empty) is appended to out, as much as fits. |
| Path.GetNameInto | clink/core/src/path.cpp:281-284 | The name component is appended to out, as much as fits. |
| Path.Append | clink/core/src/path.cpp:343-366 | out holds as much of the joined path as fits: a rooted rhs replaces out, otherwise exactly one separator goes between, with none if out is empty, ends in a separator, is a bare "x:", or rhs starts with one. The result is true exactly when rhs is empty or all of it was stored. |
| Path.AppendRelative | clink/core/src/path.cpp:348-365 | For an rhs that is not rooted, the separator test and the two appends store the joined path as Append states. |
| Path.AppendAfterSeparator | clink/core/src/path.cpp:362-365 | The separator and then rhs are appended, as much as fits. |
| Path.SeparatorNeeded | clink/core/src/path.cpp:348-360 | The flag is NeedsSeparator of out's text: out is non-empty, does not end in a separator and is not a bare "x:". |
| Path.ConcatTwice | clink/core/src/path.cpp:362-365 | Two bounded appends in a row store a prefix of the joined path; a separator that was cut off leaves no room for rhs. |
| Path.Concatenated | clink/core/src/path.cpp:338 | `out << lhs` keeps out's text and adds at most lhs to it, and all of lhs whenever it fits in the size reserve leaves. |
| Path.Join | clink/core/src/path.cpp:336-340 | For every buffer, out ends holding what Append stores of rhs after as much of lhs as `out << lhs` stored (growing a growable buffer); the result is true exactly when rhs is empty or all of the joined path was stored. |
| Path.RootStart | clink/core/src/path.cpp:373-381 | The part that is never stripped (drive or "\\" prefix, then one separator) is a prefix of the text. |
| Path.TrimSeparators | clink/core/src/path.cpp:404-405 | Backing over separators stops at lo or after a non-separator. |
| Path.TrimSeparatorsSpan | clink/core/src/path.cpp:404-405 | Everything backed over is a separator. |
| Path.TrimName | clink/core/src/path.cpp:407-408 | Backing over a component stops at lo or after a separator. |
| Path.TrimNameSpan | clink/core/src/path.cpp:407-408 | Nothing backed over is a separator. |
| Path.StrippedLength | clink/core/src/path.cpp:371-385 | The stripped length lies between the root start and the length. |
| Path.StripKeepsRoot | clink/core/src/path.cpp:371-385 | Stripping keeps the root, removes only separators, leaves no trailing separator after the root, and is idempotent. |
| Path.RootStartOf | clink/core/src/path.cpp:373-381 | The computed start is RootStart of the text. |
| Path.MaybeStripLastSeparator | clink/core/src/path.cpp:371-385 | The text is cut to its stripped length in the same buffer. |
| Path.ParentSplit | clink/core/src/path.cpp:392-417 | The cuts are ordered inside the text after the root. |
| Path.ParentSplitParts | clink/core/src/path.cpp:392-417 | The cuts split the text after the root into the parent (not ending in a separator), separators, the last component and trailing separators. |
| Path.ToParent | clink/core/src/path.cpp:390-421 | out keeps the parent part; the result is true exactly when out changed; a child, when given, receives the removed last component, as much as fits. |
| Path.ToParentTaking | clink/core/src/path.cpp:390-421 | With a child buffer, the component goes to the child and out keeps the parent. |
| Path.CutAt | clink/core/src/path.cpp:419-420 | Truncating to `end` keeps the first `end` characters and reports whether the text changed. |
| Path.ParentCuts | clink/core/src/path.cpp:392-417 | The scans compute exactly ParentSplit of the text. |
| Path.TakeChild | clink/core/src/path.cpp:410-414 | The child is cleared and then receives the component, as much as fits. |
| Path.BackOver | clink/core/src/path.cpp:404-417 | The backward scan over separators or over component characters computes TrimSeparators or TrimName. |
| Path.ParentOfJoined | clink/core/src/path.cpp:390-421 | After appending a plain name to a path that needs a separator, to_parent gives back the path and the name. |
| PathNormalise.ElementAt | clink/core/src/path.cpp:181-189 | next_element: the name lies after the separators from `read`, and the element ends after the name and at most one separator; a name with nothing after it reaches the end. |
| PathNormalise.Conv | clink/core/src/path.cpp:163-164 | The copy writes every separator as sep and every other character unchanged. |
| PathNormalise.BackTo | clink/core/src/path.cpp:146-151 | The ".." rewind stops at start or just after a separator, passing no separator. |
| PathNormalise.Backtrack | clink/core/src/path.cpp:146-151 | The write position moves back at least one character when it can, to start or just after a separator. |
| PathNormalise.Step | clink/core/src/path.cpp:129-165 | One pass consumes at least one character and never rewinds into the prefix. |
| PathNormalise.Prefix | clink/core/src/path.cpp:104-126 | The part never rewritten (drive, root separator, second UNC separator) is no longer than the input. |
| PathNormalise.Normalise | clink/core/src/path.cpp:102-168 | The buffer stays NUL-terminated and holds the normalised text of its old C string, with the corrected component count. |
| PathNormalise.WritePrefix | clink/core/src/path.cpp:104-126 | The drive is kept, a root separator (and a second one for UNC when there is no drive) is written as sep, and the initial count is INT_MAX for a rooted path, else 0. |
| PathNormalise.NormaliseRound | clink/core/src/path.cpp:129-165 | One element is skipped, dropped, rewinds the output, or is copied, exactly as Step says with the corrected component count (see Findings), and the unread input is left intact. |
| PathNormalise.NextElement | clink/core/src/path.cpp:181-189 | next_element on the buffer returns where ElementAt says the element ends. |
| PathNormalise.BackWrite | clink/core/src/path.cpp:146-151 | The rewind on the buffer computes Backtrack. |
| PathNormalise.CopyConverted | clink/core/src/path.cpp:163-164 | The copied span is appended with separators converted, and the unread input is left intact. |
| PathNormalise.NormalisedShorter | clink/core/src/path.cpp:102-168 | The normalised text is never longer than the input. |
| PathNormalise.NormalisedKeepsPrefix | clink/core/src/path.cpp:104-151 | ".." never rewinds into the drive or root: the prefix survives at the front of the output. |
| PathNormalise.NoDotPrefix | clink/core/src/path.cpp:146-151 | Rewinding to a component boundary keeps the output free of "." components. |
| PathNormalise.NoDotAppend | clink/core/src/path.cpp:163-164 | Appending a component other than "." with at most one separator keeps the output free of "." components. |
| PathNormalise.StepKeepsNoDot | clink/core/src/path.cpp:134-164 | One pass keeps the output free of "." components and ending at a component boundary (or finished). |
| PathNormalise.NormalisedDropsDot | clink/core/src/path.cpp:102-168 | With a real separator, no "." component is left after the prefix. |
| PathNormalise.DotDotCancels | clink/core/src/path.cpp:134-165 | With the corrected count, a component followed by ".." cancels: output and count return to what they were before it. |
| PathNormalise.StepCopiesName | clink/core/src/path.cpp:160-164 | A plain component with a separator after it is copied and counted. |
| PathNormalise.StepRewinds | clink/core/src/path.cpp:144-155 | ".." right after a component, with a positive count, rewinds the output to before that component. |
| PathNormalise.DotGitElements | clink/core/src/path.cpp:181-189 | ".git/.." has no prefix, a zero initial count, and elements ".git/" and "..". |
| PathNormalise.NormaliseKeepsDotDot | clink/core/src/path.cpp:134-160 | As written, ".git/.." is left unchanged: the '.'-initial component is not counted, so the ".." cannot remove it. |
| PathNormalise.NormaliseCancelsDotDot | clink/core/src/path.cpp:134-160 | With the corrected count, ".git/.." normalises to the empty path. |
| Wildmatch.Implied | wildmatch/wildmatch/wildmatch.c:87-90 | WM_WILDSTAR turns WM_PATHNAME on, and no other flag changes. |
| Wildmatch.SlashFrom | wildmatch/wildmatch/wildmatch.c:66-75 | A found slash lies at or after i, before the terminator, and is a slash under the flags. |
| Wildmatch.ClassAt | wildmatch/wildmatch/wildmatch.c:349-364 | A class found is one of the known names, and "name:]" follows at that point of the pattern. |
| Wildmatch.Range | wildmatch/wildmatch/wildmatch.c:270-374 | A match resumes the pattern after the closing ']'. |
| Wildmatch.Head | wildmatch/wildmatch/wildmatch.c:303-310 | Reading a member (after an optional backslash) moves forward and keeps the verdict so far. |
| Wildmatch.RangePart | wildmatch/wildmatch/wildmatch.c:312-332 | A "-c2" range end never stops the set at a slash and resumes at or after the member. |
| Wildmatch.ClassPart | wildmatch/wildmatch/wildmatch.c:334-369 | The class or the literal member always yields a next position at or after j. |
| Wildmatch.Pass | wildmatch/wildmatch/wildmatch.c:302-370 | One pass of the do-while moves forward. |
| Wildmatch.ScanAt | wildmatch/wildmatch/wildmatch.c:302-370 | A closed set resumes after its ']'. |
| Wildmatch.SkipStars | wildmatch/wildmatch/wildmatch.c:144-146 | The first index at or after i that is not '*', with only stars before it. |
| Wildmatch.Collapse | wildmatch/wildmatch/wildmatch.c:131-137 | Collapsing "/**" runs ends at a non-star and keeps `prev` when nothing was collapsed. |
| Wildmatch.Advance | wildmatch/wildmatch/wildmatch.c:93-265 | A case that continues moves both the pattern and the string forward; the star case is reported for a '*'. |
| Wildmatch.Normal | wildmatch/wildmatch/wildmatch.c:254-264 | The normal case consumes one string character and resumes at the given pattern position. |
| Wildmatch.StarPlan | wildmatch/wildmatch/wildmatch.c:119-147 | The star leaves the pattern past its run of stars at a non-star; for a plain star, exactly past the run, with prev the char before it. |
| Wildmatch.WildstarSearchesFromStart | wildmatch/wildmatch/wildmatch.c:175 | As written, the slash search after "**" and "/" restarts at stringstart, so the pattern x/y/(two stars)/y/z matches "x/y/z". |
| Wildmatch.WildstarSearchesFromHere | wildmatch/wildmatch/wildmatch.c:171-188 | Searching from the current position, that pattern does not match "x/y/z". |
| Wildmatch.BrokenBracketSkipsChar | wildmatch/wildmatch/wildmatch.c:231-234 | As written, an unterminated '[' skips a string character before the normal comparison: "[" fails on "[" and matches "x[". |
| Wildmatch.BrokenBracketIsLiteral | wildmatch/wildmatch/wildmatch.c:231-234 | Corrected, the pattern "[" matches exactly the string "[". |
| Wildmatch.LeadingWildstarReadsBefore | wildmatch/wildmatch/wildmatch.c:122 | As written, a pattern starting with "**" reads the byte before the pattern: "**" matches "a/b" when that byte is '/' and not when it is 'x'. |
| Wildmatch.LeadingWildstarMatchesAll | wildmatch/wildmatch/wildmatch.c:158-161 | Corrected, the whole pattern "**" matches every string. |
| Wildmatch.FindSlash | wildmatch/wildmatch/wildmatch.c:66-75 | find_slash returns SlashFrom of the string. |
| Wildmatch.SlashFromFirst | wildmatch/wildmatch/wildmatch.c:66-75 | find_slash returns the first slash before the terminator, and none exactly when there is none. |
| Wildmatch.RangeMatchAt | wildmatch/wildmatch/wildmatch.c:270-374 | rangematch computes Range: negation, folding of the test char, then the members until ']'. |
| Wildmatch.ScanMembers | wildmatch/wildmatch/wildmatch.c:300-370 | The do-while over the members computes ScanAt. |
| Wildmatch.MemberPass | wildmatch/wildmatch/wildmatch.c:303-369 | One pass of the do-while computes Pass. |
| Wildmatch.RangeEnd | wildmatch/wildmatch/wildmatch.c:312-332 | The "-c2" part computes RangePart (a reversed range is swapped). |
| Wildmatch.ClassEnd | wildmatch/wildmatch/wildmatch.c:334-369 | The "[:name:]" part or the literal comparison computes ClassPart. |
| Wildmatch.SkipStarRun | wildmatch/wildmatch/wildmatch.c:144-146 | The collapsing loop stops at SkipStars. |
| Wildmatch.Wildmatch | wildmatch/wildmatch/wildmatch.c:78-268 | wildmatch returns the corrected Matches of the pattern against the string, with WM_WILDSTAR implying WM_PATHNAME. |
| Wildmatch.Step | wildmatch/wildmatch/wildmatch.c:93-265 | The switch on the next pattern character computes the corrected Advance (see Findings): an unterminated '[' is a literal. |
| Wildmatch.NormalStep | wildmatch/wildmatch/wildmatch.c:254-264 | The normal case computes Normal. |
| Wildmatch.CollapseRun | wildmatch/wildmatch/wildmatch.c:131-137 | The "/**" collapsing loop computes Collapse. |
| Wildmatch.StarCase | wildmatch/wildmatch/wildmatch.c:118-213 | The '*' case computes the corrected Star (see Findings): the slash search after "**" and "/" starts at the current position, and the byte before the pattern is taken as '/'. |
| Wildmatch.PlanStar | wildmatch/wildmatch/wildmatch.c:119-147 | The skip over the stars and the collapse compute StarPlan, with the byte before the pattern taken as '/' (corrected, see Findings). |
| Wildmatch.StarTail | wildmatch/wildmatch/wildmatch.c:138-213 | The rest of the '*' case computes the corrected StarRest (see Findings): the slash search after "**" and "/" starts at the current position. |
| Wildmatch.SlashLoop | wildmatch/wildmatch/wildmatch.c:180-188 | The loop over the slashes computes SlashScan, matching the rest with the corrected Matches (see Findings). |
| Wildmatch.GeneralLoop | wildmatch/wildmatch/wildmatch.c:203-213 | The general-case loop computes StarScan, with WM_PERIOD dropped, matching the rest with the corrected Matches (see Findings). |
| Wildmatch.AgreeCons | wildmatch/wildmatch/wildmatch.c:254-264 | Agreement character by character splits at the first character. |
| Wildmatch.PlainSuffix | wildmatch/wildmatch/wildmatch.c:254-264 | A pattern suffix without special characters matches a string suffix exactly when they agree character by character. |
| Wildmatch.PlainMatches | wildmatch/wildmatch/wildmatch.c:93-100 | Without WM_LEADING_DIR, a plain pattern matches exactly the strings that agree with it character by character. |
| Wildmatch.PlainMatchesItself | wildmatch/wildmatch/wildmatch.c:254-264 | Without case or slash folding, a plain pattern matches itself and nothing else, both as written and corrected. |
| Wildmatch.QuestionsSuffix | wildmatch/wildmatch/wildmatch.c:101-117 | n '?' match exactly n characters, none a slash under WM_PATHNAME or a protected '.'. |
| Wildmatch.QuestionsMatch | wildmatch/wildmatch/wildmatch.c:101-117 | A pattern of '?' only matches a string of the same length whose every character a '?' may take. |
| Wildmatch.QuestionSkipsSlash | wildmatch/wildmatch/wildmatch.c:106-108 | Under WM_PATHNAME '?' never matches '/', and it fails on '\' exactly under WM_SLASHFOLD. |
| Wildmatch.TrailingStar | wildmatch/wildmatch/wildmatch.c:157-170 | A trailing run of stars that is not a wildstar matches any rest (unless it starts with a protected '.'), except one holding a slash under WM_PATHNAME without WM_LEADING_DIR. |
| Wildmatch.TrailingWildstar | wildmatch/wildmatch/wildmatch.c:158-161 | A "**" closing the pattern after a '/' matches any rest, slashes included. |
| Wildmatch.PeriodNotWild | wildmatch/wildmatch/wildmatch.c:109-115 | Under WM_PERIOD a protected '.' is not matched by '?', '[' or a '*' that is not a wildstar. |
| Wildmatch.PeriodAtStart | wildmatch/wildmatch/wildmatch.c:149-156 | A string starting with '.' needs the '.' spelled out in the pattern under WM_PERIOD. |
| Wildmatch.WildstarImpliesPathname | wildmatch/wildmatch/wildmatch.c:87-90 | Under WM_WILDSTAR, adding WM_PATHNAME changes no verdict. |
| Wildmatch.SlashfoldMatchesBackslash | wildmatch/wildmatch/wildmatch.c:260 | A pattern '/' matches a backslash exactly under WM_SLASHFOLD. |
| Wildmatch.NegationFlips | wildmatch/wildmatch/wildmatch.c:284-285 | '!' and '^' keep the members and invert the verdict of a closed set; a broken set stays broken. |
| Wildmatch.RangeEitherOrder | wildmatch/wildmatch/wildmatch.c:312-332 | "[x-y]" matches a character between its ends, whichever end comes first, compared as signed chars after folding. |
| Wildmatch.SpanMember | wildmatch/wildmatch/wildmatch.c:312-332 | The member "x-y" followed by ']' is one pass that tests the span. |
| Wildmatch.ScanUnclosed | wildmatch/wildmatch/wildmatch.c:302-370 | With nothing to close the set or stop it at a slash, the members run into the terminator. |
| Wildmatch.UnterminatedRange | wildmatch/wildmatch/wildmatch.c:306-307 | A '[' that nothing closes gives RANGE_ERROR, never a match or a no-match. |
| CmdTokenisers.BreakOnlyOnSeparator | clink/lib/src/cmd_tokenisers.cpp:38-53 | In the transition table, the break state is reached exactly from text, space or digit on '&' or '\|'. |
| CmdTokenisers.ResetNeverEndsRedir | clink/lib/src/cmd_tokenisers.cpp:141-145 | After the reset to sSpc, the next state is the break or a state with a row, never a redirection outcome. |
| CmdTokenisers.SkipBreaks | clink/lib/src/cmd_tokenisers.cpp:95-101 | The skip passes only '&' and '\|' and stops at the end or at anything else. |
| CmdTokenisers.CommandStep | clink/lib/src/cmd_tokenisers.cpp:115-161 | One turn of the command loop either breaks on the '&' or '\|' it read or moves forward to a state with a row. |
| CmdTokenisers.ScanCommand | clink/lib/src/cmd_tokenisers.cpp:115-161 | The loop moves forward, and a break ends just after the '&' or '\|' that caused it. |
| CmdTokenisers.CommandNext | clink/lib/src/cmd_tokenisers.cpp:86-168 | A word is returned exactly when the iterator has more; the iterator moves forward and the word lies between the old and the new position; a break inside a word never comes out of the command tokeniser. |
| CmdTokenisers.CommandBreakExcluded | clink/lib/src/cmd_tokenisers.cpp:163-165 | A command ends at the iterator, or just before the '&' or '\|' that broke it. |
| CmdTokenisers.ScanWithoutBreaks | clink/lib/src/cmd_tokenisers.cpp:115-161 | Text without '&' or '\|' never breaks: the loop runs to the end. |
| CmdTokenisers.OneCommand | clink/lib/src/cmd_tokenisers.cpp:86-168 | Text without '&' or '\|' is one command running to the end, after a skipped leading space unless it is the first. |
| CmdTokenisers.PlainStep | clink/lib/src/cmd_tokenisers.cpp:131-160 | A plain character moves the state to text or space. |
| CmdTokenisers.BreakStep | clink/lib/src/cmd_tokenisers.cpp:147-151 | '&' or '\|' after text or space breaks the command. |
| CmdTokenisers.PlainThenBreak | clink/lib/src/cmd_tokenisers.cpp:115-161 | Plain text up to a '&' or '\|' at k: the loop breaks just after k. |
| CmdTokenisers.SkipBreaksOver | clink/lib/src/cmd_tokenisers.cpp:95-101 | A run of '&' and '\|' that ends at k is skipped up to exactly k. |
| CmdTokenisers.FirstCommandBreaks | clink/lib/src/cmd_tokenisers.cpp:86-168 | A first command of plain text ends before the '&' or '\|' at k, which the iterator passes, and that character is the delimiter. |
| CmdTokenisers.NextCommandAfterRun | clink/lib/src/cmd_tokenisers.cpp:95-109 | Later commands skip the rest of a run of '&' and '\|' and then one space. |
| CmdTokenisers.EscapeSkipsNext | clink/lib/src/cmd_tokenisers.cpp:133-136 | A '^' outside quotes steps over the next character too. |
| CmdTokenisers.QuotedStep | clink/lib/src/cmd_tokenisers.cpp:119-130 | Inside quotes, a character other than the closing quote and '^' keeps the state. |
| CmdTokenisers.CloseQuoteStep | clink/lib/src/cmd_tokenisers.cpp:121-125 | The closing quote ends the quoted part and keeps the state. |
| CmdTokenisers.QuotedRun | clink/lib/src/cmd_tokenisers.cpp:119-130 | Inside quotes nothing breaks: the loop runs on to the closing quote. |
| CmdTokenisers.SkipSeparators | clink/lib/src/cmd_tokenisers.cpp:195-201 | start_new_word stops at the end or at a character other than space, tab, '=' or ';'. |
| CmdTokenisers.StepWord | clink/lib/src/cmd_tokenisers.cpp:215-294 | One turn of the word loop keeps a valid loop state, a continuing turn moves the iterator forward, and the word start never moves back. |
| CmdTokenisers.WordTail | clink/lib/src/cmd_tokenisers.cpp:263-292 | The rest of a turn keeps the word start and a valid state. |
| CmdTokenisers.ScanWord | clink/lib/src/cmd_tokenisers.cpp:215-294 | The word loop ends in a valid state at or after where it started. |
| CmdTokenisers.WordNext | clink/lib/src/cmd_tokenisers.cpp:180-299 | The token is invalid exactly when the iterator has no more; the iterator moves forward and a word lies between the old and the new position. |
| CmdTokenisers.WordCharStep | clink/lib/src/cmd_tokenisers.cpp:277-284 | A word character inside a word extends the word. |
| CmdTokenisers.WordCharScan | clink/lib/src/cmd_tokenisers.cpp:277-284 | A word character inside a word leaves the rest of the scan unchanged. |
| CmdTokenisers.SeparatorStep | clink/lib/src/cmd_tokenisers.cpp:276-278 | A separator inside a word ends the word there, and the iterator passes the separator. |
| CmdTokenisers.TextStep | clink/lib/src/cmd_tokenisers.cpp:283-284 | A fresh word starting with a word character takes that character in. |
| CmdTokenisers.PlainWordScan | clink/lib/src/cmd_tokenisers.cpp:215-294 | A run of word characters ending in a separator: the word ends at the separator and the iterator passes it. |
| CmdTokenisers.SeparatorEndsWord | clink/lib/src/cmd_tokenisers.cpp:180-299 | Space, tab, '=' and ';' end a word, which keeps the carried redirection flag and clears it for the next call. |
| CmdTokenisers.ScanWordWithoutBreaks | clink/lib/src/cmd_tokenisers.cpp:242 | With no '&' or '\|' in the text, the word loop never meets the break its assert excludes. |
| CmdTokenisers.NoBreakInWord | clink/lib/src/cmd_tokenisers.cpp:242 | With no '&' or '\|', the word tokeniser never yields the break outcome. |
| CmdTokenisers.SkipSeparatorsOver | clink/lib/src/cmd_tokenisers.cpp:195-201 | A run of separators that ends at k is skipped up to exactly k. |
| CmdTokenisers.DigitStep | clink/lib/src/cmd_tokenisers.cpp:41 | A fresh word starting with a digit moves to the digit state; the word is still empty. |
| CmdTokenisers.OperatorStep | clink/lib/src/cmd_tokenisers.cpp:41 | A fresh word starting with '>' or '<' moves to that operator's state; the word is still empty. |
| CmdTokenisers.ArgAfterOperatorStep | clink/lib/src/cmd_tokenisers.cpp:246-261 | After an operator with nothing before it, the file name starts a new word, flagged as a redirection argument. |
| CmdTokenisers.OperatorAfterTextStep | clink/lib/src/cmd_tokenisers.cpp:40 | '>' or '<' right after word text moves to the operator's state and leaves the word's end where it was. |
| CmdTokenisers.FlagDone | clink/lib/src/cmd_tokenisers.cpp:246-252 | A file name after an operator that follows a word: the word is returned and the flag carried to the next call. |
| CmdTokenisers.HandleOutStep | clink/lib/src/cmd_tokenisers.cpp:42 | '>' after a lone digit redirects that handle. |
| CmdTokenisers.HandleAmpStep | clink/lib/src/cmd_tokenisers.cpp:48 | '&' after a handle redirection moves to the duplication state. |
| CmdTokenisers.HandleTargetStep | clink/lib/src/cmd_tokenisers.cpp:51 | A digit after "n>&" names the duplicated handle. |
| CmdTokenisers.RestartAfterHandleStep | clink/lib/src/cmd_tokenisers.cpp:246-261 | After "n>&m" and separators, the next word starts and is not flagged. |
| CmdTokenisers.DigitSpaceDone | clink/lib/src/cmd_tokenisers.cpp:263-278 | A lone digit followed by a space or tab ends as a word that includes the digit. |
| CmdTokenisers.WordNextFromScan | clink/lib/src/cmd_tokenisers.cpp:180-299 | next() returns the word the loop ended with, its delimiter, and the flag for the next call. |
| CmdTokenisers.PlainWordTo | clink/lib/src/cmd_tokenisers.cpp:277-284 | A word of plain characters runs to the separator after it. |
| CmdTokenisers.OperatorThenArg | clink/lib/src/cmd_tokenisers.cpp:246-261 | An operator, separators, then a word character: the word restarts there, flagged. |
| CmdTokenisers.RedirArgScan | clink/lib/src/cmd_tokenisers.cpp:246-284 | An operator, separators and a file name: the loop ends with the file name as a flagged word. |
| CmdTokenisers.RedirArgAfterOperator | clink/lib/src/cmd_tokenisers.cpp:180-299 | The word after a redirection operator and its separators is returned flagged as a redirection argument. |
| CmdTokenisers.WordRunTo | clink/lib/src/cmd_tokenisers.cpp:277-284 | A run of word characters extends a fresh word to its end. |
| CmdTokenisers.OperatorAfterWord | clink/lib/src/cmd_tokenisers.cpp:246-252 | An operator after a word ends the word before it and sets the flag for the next call. |
| CmdTokenisers.RedirFlagScan | clink/lib/src/cmd_tokenisers.cpp:246-284 | A word running into '>' or '<': the loop ends at the operator with the flag set. |
| CmdTokenisers.RedirFlagCarried | clink/lib/src/cmd_tokenisers.cpp:180-299 | A word running into '>' or '<' is returned at once, and the flag is carried to the next call. |
| CmdTokenisers.HandleRedirect | clink/lib/src/cmd_tokenisers.cpp:41-42 | A digit and '>' from a fresh word reach the handle-redirection state. |
| CmdTokenisers.HandleDuplicate | clink/lib/src/cmd_tokenisers.cpp:48-51 | '&' and a digit after a handle redirection complete "n>&m". |
| CmdTokenisers.AfterDuplicate | clink/lib/src/cmd_tokenisers.cpp:246-261 | After "n>&m" and separators, the next word runs to its separator, unflagged. |
| CmdTokenisers.DuplicatedHandleScan | clink/lib/src/cmd_tokenisers.cpp:215-294 | "n>&m", separators and a word: the loop ends with that word, unflagged. |
| CmdTokenisers.DuplicatedHandle | clink/lib/src/cmd_tokenisers.cpp:180-299 | "2>&1" yields no word of its own: the word after it is returned, unflagged. |
| CmdTokenisers.DigitSpaceScan | clink/lib/src/cmd_tokenisers.cpp:263-278 | A digit then a space or tab: the loop ends with the one-character word. |
| CmdTokenisers.DigitSpaceIsWord | clink/lib/src/cmd_tokenisers.cpp:263-278 | A digit followed by a space or tab is a word of its own. |
| CmdTokenisers.SkipBreakRun | clink/lib/src/cmd_tokenisers.cpp:95-101 | The skip loop computes SkipBreaks. |
| CmdTokenisers.CommandStepAt | clink/lib/src/cmd_tokenisers.cpp:117-160 | The body of the command loop computes CommandStep. |
| CmdTokenisers.ScanCommandLoop | clink/lib/src/cmd_tokenisers.cpp:111-161 | The command loop from the offset, starting in sSpc outside quotes, computes ScanCommand. |
| CmdTokenisers.CommandNextAt | clink/lib/src/cmd_tokenisers.cpp:86-168 | The body of next() computes CommandNext. |
| CmdTokenisers.CommandTokeniser.constructor | clink/lib/src/cmd_tokenisers.cpp:59-65 | A new tokeniser has no text and no quote pair. |
| CmdTokenisers.CommandTokeniser.Start | clink/lib/src/cmd_tokenisers.cpp:59-65 | start sets the text, the iterator at its start and the quote pair. |
| CmdTokenisers.CommandTokeniser.Next | clink/lib/src/cmd_tokenisers.cpp:86-168 | next() returns the token of CommandNext and moves the iterator to where it says. |
| CmdTokenisers.SkipSeparatorRun | clink/lib/src/cmd_tokenisers.cpp:195-201 | The separator loop computes SkipSeparators. |
| CmdTokenisers.WordStepAt | clink/lib/src/cmd_tokenisers.cpp:217-293 | The body of the word loop computes StepWord. |
| CmdTokenisers.WordTailAt | clink/lib/src/cmd_tokenisers.cpp:263-292 | The rest of a turn computes WordTail. |
| CmdTokenisers.ScanWordLoop | clink/lib/src/cmd_tokenisers.cpp:215-294 | The word loop computes ScanWord. |
| CmdTokenisers.WordNextAt | clink/lib/src/cmd_tokenisers.cpp:180-299 | The body of next() computes WordNext. |
| CmdTokenisers.WordTokeniser.constructor | clink/lib/src/cmd_tokenisers.cpp:59-65 | A new tokeniser has no text, no quote pair and no carried flag. |
| CmdTokenisers.WordTokeniser.Start | clink/lib/src/cmd_tokenisers.cpp:59-65 | start sets the text, the iterator and the quote pair and clears the carried flag. |
| CmdTokenisers.WordTokeniser.Next | clink/lib/src/cmd_tokenisers.cpp:180-299 | next() returns the token of WordNext, moves the iterator and stores the carried flag. |
| Doskey.CommandEndIsFirstSeparator | clink/lib/src/doskey.cpp:89-117 | find_command_end stops at the first '\|' or '&' outside quotes that is not the '&' of ">&", or at the end; everything before it belongs to the command. |
| Doskey.CommandEndFromIsFirst | clink/lib/src/doskey.cpp:92-116 | The same from any position whose quote state is the parity of the '"' before it. |
| Doskey.FindCommandEnd | clink/lib/src/doskey.cpp:89-117 | The scan loop returns CommandEnd. |
| Doskey.RoundUp128 | clink/lib/src/doskey.cpp:220 | The hint is rounded up to the next multiple of 128. |
| Doskey.TrimmedLenDropsTrailingSpaces | clink/lib/src/doskey.cpp:202-208 | trimmed_length drops exactly the trailing run of spaces. |
| Doskey.StrStream.constructor | clink/lib/src/doskey.cpp:151-156 | A new stream is empty and has no buffer. |
| Doskey.StrStream.Grow | clink/lib/src/doskey.cpp:218-226 | The buffer grows by the rounded hint, keeping the contents and the cursor. |
| Doskey.StrStream.Put | clink/lib/src/doskey.cpp:165-171 | One char is appended, growing by 128 when the cursor is at the end. |
| Doskey.StrStream.PutRange | clink/lib/src/doskey.cpp:174-181 | The range is appended, growing by its rounded length unless it fits strictly before the end. |
| Doskey.StrStream.Length | clink/lib/src/doskey.cpp:196-199 | The length of what was written. |
| Doskey.StrStream.TrimmedLength | clink/lib/src/doskey.cpp:202-208 | The trailing-space loop computes TrimmedLen. |
| Doskey.StrStream.Collect | clink/lib/src/doskey.cpp:211-215 | The text is handed over and the stream left empty with no buffer. |
| Doskey.CollectArgs | clink/lib/src/doskey.cpp:406-412 | The tokens are taken in order until the ten slots are full. |
| Doskey.CollectedArgsBounded | clink/lib/src/doskey.cpp:406-412 | At most ten arguments, each inside the command, all of them when there are at most ten tokens. |
| Doskey.SplitsFromTags | clink/lib/src/doskey.cpp:339-369 | The split scan from a position with a consistent quote state finds no "$*" or "$1".."$9" inside quotes after it exactly when it splits. |
| Doskey.SplitUnlessQuotedArgTag | clink/lib/src/doskey.cpp:336-376 | The input is split at the next separator exactly when the macro has no "$*" or "$1".."$9" inside quotes ("$$" skipped as one tag). |
| Doskey.MacroSplits | clink/lib/src/doskey.cpp:339-369 | The scan loop computes SplitsFrom from the start outside quotes. |
| Doskey.ExpandAppend | clink/lib/src/doskey.cpp:467-582 | The expansion of a closed prefix followed by more text is the two expansions joined. |
| Doskey.ExpandVerbatim | clink/lib/src/doskey.cpp:469-473 | Macro text without '$' is copied unchanged. |
| Doskey.TagTable | clink/lib/src/doskey.cpp:481-489 | "$$", "$g", "$l", "$b" and "$t" in either case convert to '$', '>', '<', '\|' and newline; no other char converts. |
| Doskey.ConvertedTag | clink/lib/src/doskey.cpp:481-496 | A converting tag expands to its char. |
| Doskey.UnknownTagLiteral | clink/lib/src/doskey.cpp:498-505 | "$c" naming no tag is copied as it is. |
| Doskey.TrailingDollarDropped | clink/lib/src/doskey.cpp:475-477 | A '$' just before the terminator is dropped. |
| Doskey.ArgumentTag | clink/lib/src/doskey.cpp:498-510 | "$1".."$9" insert that argument (the copy at lines 577-581), or nothing when it is missing. |
| Doskey.StarTag | clink/lib/src/doskey.cpp:500-510 | "$*" inserts the command from the first argument to its end (the copy at lines 571-576), or nothing without arguments. |
| Doskey.ExpandPlain | clink/lib/src/doskey.cpp:469-473 | A plain char is copied and the scan moves on one. |
| Doskey.ExpandLoneDollar | clink/lib/src/doskey.cpp:475-477 | A '$' before the terminator ends the expansion. |
| Doskey.ExpandTag | clink/lib/src/doskey.cpp:475-582 | A tag "$c" expands to its text and the scan moves on two. |
| Doskey.EmitTag | clink/lib/src/doskey.cpp:481-581 | Writing one tag appends its TagText to the stream. |
| Doskey.ExpandTurn | clink/lib/src/doskey.cpp:467-582 | One turn of the loop writes a char or a tag and moves on, with the stream plus the rest's expansion unchanged, or stops at a lone '$'. |
| Doskey.ExpandMacro | clink/lib/src/doskey.cpp:467-582 | The loop appends the macro text's expansion to the stream. |
| Doskey.LineEnd | clink/lib/src/doskey.cpp:249-255 | The first newline or NUL at or after the cursor. |
| Doskey.TextEnd | clink/lib/src/doskey.cpp:244-262 | The first NUL at or after the cursor. |
| Doskey.LineEndIsFirst | clink/lib/src/doskey.cpp:249-255 | No newline or NUL before the line's end. |
| Doskey.LinesRejoin | clink/lib/src/doskey.cpp:244-258 | The lines next() returns rejoin, each with a newline, to the text up to the NUL, with a final newline added where it lacked one. |
| Doskey.LinesAreClean | clink/lib/src/doskey.cpp:249-255 | No line holds a newline or a NUL. |
| Doskey.DoskeyAlias.constructor | clink/lib/src/doskey.cpp:231-234 | A new alias holds only the terminator. |
| Doskey.DoskeyAlias.Reset | clink/lib/src/doskey.cpp:237-241 | reset leaves only the terminator. |
| Doskey.DoskeyAlias.Assign | clink/lib/src/doskey.cpp:664-669 | resolve's collected text, ending in its NUL, becomes the buffer, with the cursor at the start. |
| Doskey.DoskeyAlias.HasMore | clink/lib/src/doskey.cpp:262-265 | operator bool is true exactly when a line is left. |
| Doskey.DoskeyAlias.Next | clink/lib/src/doskey.cpp:244-258 | next() returns false and leaves out alone at the end; otherwise it returns the first remaining line and the cursor moves past it. |
| SessionStreams.GrownCapacity | clink/lua/src/sessionstream.cpp:50-56 | The new capacity is half as much again as the old (at least the Lua buffer size), half as much again as the need when that is still short, and never above the 4 MB limit; it never shrinks and covers the need when the limit allows. |
| SessionStreams.StoredCount | clink/lua/src/sessionstream.cpp:70-80 | A write stores nothing at or past the last usable byte, and otherwise as much as fits below the NUL slot. |
| SessionStreams.AddCrAppend | clink/lua/src/sessionstream.cpp:343-358 | The text-mode write encoding works piecewise. |
| SessionStreams.AddCrStep | clink/lua/src/sessionstream.cpp:343-358 | Each LF adds CR LF, any other byte itself. |
| SessionStreams.AddCrPlain | clink/lua/src/sessionstream.cpp:343-358 | Bytes without LF are written unchanged. |
| SessionStreams.AddCrPrefix | clink/lua/src/sessionstream.cpp:343-358 | Encoding a prefix gives no more bytes than encoding the whole. |
| SessionStreams.StripAddCr | clink/lua/src/sessionstream.cpp:100-108 | A text-mode read (lines 100-108) of bytes written in text mode (lines 343-358) gives them back. |
| SessionStreams.TextRead | clink/lua/src/sessionstream.cpp:97-111 | A text-mode read moves forward inside the stream and yields at most max bytes. |
| SessionStreams.TextReadStrips | clink/lua/src/sessionstream.cpp:97-111 | The bytes read are the CR LF-folded bytes passed over. |
| SessionStreams.TextReadToEnd | clink/lua/src/sessionstream.cpp:97-111 | With room for every byte it yields, the read reaches the end. |
| SessionStreams.TextRoundTrip | clink/lua/src/sessionstream.cpp:97-111 | Reading back in text mode what was written in text mode, from the start, yields the original bytes and ends at the end. |
| SessionStreams.RawLine | clink/lua/src/sessionstream.cpp:134-150 | gets passes over at most the limit of bytes and yields exactly those. |
| SessionStreams.RawLineShape | clink/lua/src/sessionstream.cpp:134-150 | The raw line is the bytes passed over, has an LF only as its last byte, and stops short of the limit and the end only after an LF. |
| SessionStreams.RawLineOfCopy | clink/lua/src/sessionstream.cpp:134-150 | Any run ending at an LF, at the limit or at the end with no earlier LF is the raw line. |
| SessionStreams.GetsLine | clink/lua/src/sessionstream.cpp:139-145 | A final CR LF is folded to LF in text mode; a line ending in LF still ends in LF. |
| SessionStreams.GetsLineLfOnlyLast | clink/lua/src/sessionstream.cpp:139-145 | Folding keeps LF to the last byte. |
| SessionStreams.GetsBounded | clink/lua/src/sessionstream.cpp:131-152 | gets stores at most max - 1 bytes, with an LF only as the last. |
| SessionStreams.SessionStream.constructor | clink/lua/src/sessionstream.cpp:26-29 | A new stream is empty and has no allocation. |
| SessionStreams.SessionStream.Reserve | clink/lua/src/sessionstream.cpp:48-67 | If the need does not fit, the allocation grows to GrownCapacity keeping the bytes, or write gives up when reallocation fails. |
| SessionStreams.SessionStream.Write | clink/lua/src/sessionstream.cpp:45-89 | write grows when offset + count + 1 does not fit, returns 0 on allocation failure, stores StoredCount bytes at the offset, moves it by that, extends the size with a new NUL, and keeps every other byte. |
| SessionStreams.SessionStream.Store | clink/lua/src/sessionstream.cpp:69-86 | The copy stores StoredCount bytes, extends the size and writes its NUL, and changes nothing else. |
| SessionStreams.SessionStream.Read | clink/lua/src/sessionstream.cpp:92-126 | A text-mode read gives TextRead; a binary read copies min(max, size - offset) bytes; nothing past num is touched. |
| SessionStreams.SessionStream.ReadText | clink/lua/src/sessionstream.cpp:97-111 | The text-mode loop computes TextRead. |
| SessionStreams.SessionStream.Gets | clink/lua/src/sessionstream.cpp:129-153 | gets stores the folded raw line of at most max - 1 bytes and a NUL after it, and nothing for max 0. |
| SessionStreams.SessionStream.ReadLine | clink/lua/src/sessionstream.cpp:134-150 | The gets loop computes GetsLine of RawLine. |
| SessionStreams.SessionStream.FoldCrLf | clink/lua/src/sessionstream.cpp:139-145 | A CR before the final LF is dropped in text mode. |
| SessionStreams.SessionStream.TruncateAsWritten | clink/lua/src/sessionstream.cpp:170-175 | truncate lowers the size to the offset and returns true, leaving the byte at the new size as it was. |
| SessionStreams.SessionStream.Truncate | clink/lua/src/sessionstream.cpp:170-175 | Corrected (see Findings): the same truncation, with a NUL written at the new size. |
| SessionStreams.SessionStream.Clear | clink/lua/src/sessionstream.cpp:178-184 | clear frees the allocation: no contents, no capacity. |
| SessionStreams.SeekClamps | clink/lua/src/sessionstream.cpp:613-638 | seek lands on base + delta limited to 4 MB; a target before the start wraps as an unsigned 64-bit value and lands on the limit. |
| SessionStreams.AddCrPlainSlice | clink/lua/src/sessionstream.cpp:343-358 | A slice without LF is written unchanged. |
| SessionStreams.ChunkEncoding | clink/lua/src/sessionstream.cpp:343-358 | Writing the pending chunk completes the encoding of the bytes looked at. |
| SessionStreams.Handle.constructor | clink/lua/src/sessionstream.cpp:282-288 | A handle opens at offset 0, in text mode unless binary is asked for. |
| SessionStreams.Handle.Size | clink/lua/src/sessionstream.cpp:327-332 | A closed handle reports size 0, otherwise the stream's size. |
| SessionStreams.Handle.Eof | clink/lua/src/sessionstream.cpp:303-306 | End of file when closed or the offset is at or past the size. |
| SessionStreams.Handle.Write | clink/lua/src/sessionstream.cpp:335-358 | Closed or read-only handles write nothing; otherwise the text-mode encoding (or the raw bytes) is placed at the offset, and all of it is counted when it fits. |
| SessionStreams.Handle.WriteText | clink/lua/src/sessionstream.cpp:341-358 | The text-mode loop places AddCr of the bytes, in chunks ending before each LF or at 4096 bytes. |
| SessionStreams.Handle.PlacedContents | clink/lua/src/sessionstream.cpp:335-358 | When everything fits, the stream holds exactly what was written from the old offset on. |
| SessionStreams.Handle.Put | clink/lua/src/sessionstream.cpp:347-353 | One write after earlier ones: their bytes and the new ones are placed. |
| SessionStreams.Handle.TextTurn | clink/lua/src/sessionstream.cpp:343-354 | One turn of the loop keeps the write state: the pending chunk is flushed before an LF or at 4096 bytes, and an LF's CR is put. |
| SessionStreams.Handle.FlushChunk | clink/lua/src/sessionstream.cpp:347-348 | Writing the pending chunk puts the encoding of the bytes before it on the stream. |
| SessionStreams.Handle.TextFlush | clink/lua/src/sessionstream.cpp:356-357 | The last chunk completes the encoding. |
| SessionStreams.Handle.Emit | clink/lua/src/sessionstream.cpp:45-89 | One write at the handle's offset advances it by what was stored, leaving other bytes alone. |
| SessionStreams.Handle.Read | clink/lua/src/sessionstream.cpp:361-366 | Closed or unreadable handles read nothing; otherwise the stream's read in the handle's mode. |
| SessionStreams.Handle.Gets | clink/lua/src/sessionstream.cpp:369-374 | Closed or unreadable handles read nothing; otherwise the stream's gets in the handle's mode. |
| SessionStreams.Handle.Truncate | clink/lua/src/sessionstream.cpp:388-395 | false once closed, a no-op on a handle not opened for writing, otherwise truncation at the offset through the corrected SessionStream.Truncate, which writes a NUL there (see Findings). |
| SessionStreams.Handle.Close | clink/lua/src/sessionstream.cpp:398-404 | Closing succeeds once. |
| SessionStreams.Handle.Seek | clink/lua/src/sessionstream.cpp:613-638 | The offset moves to SeekTarget from the start, the offset or the size. |
| SessionStreams.TextWriteReadsBack | clink/lua/src/sessionstream.cpp:335-366 | Bytes written through a text-mode handle onto a new stream read back unchanged through a text-mode handle. |
| SessionStreams.TruncateLeavesStaleByte | clink/lua/src/sessionstream.cpp:170-175 | Writing "123" and truncating to one byte leaves the stream unterminated. |
| SessionStreams.TruncateKeepsTerminator | clink/lua/src/sessionstream.cpp:170-175 | With the NUL restored the same steps leave it terminated. |
| TerminalIn.ScanRow | clink/terminal/src/win_terminal_in.cpp:213-244 | The sc_map row of a scan code is one of the ten cursor-block rows. |
| TerminalIn.ModifierIndex | clink/terminal/src/win_terminal_in.cpp:228-232 | Xterm's modifier number minus one is below 8. |
| TerminalIn.FunctionKeyIndex | clink/terminal/src/win_terminal_in.cpp:174-180 | The kf1-kf48 index is inside the table. |
| TerminalIn.CtrlCode | clink/terminal/src/win_terminal_in.cpp:249-262 | Ctrl with a key yields a C0 code below 0x20 when it yields one. |
| TerminalIn.Bytes | clink/terminal/src/win_terminal_in.cpp:267-277 | A terminfo string as the bytes of its char array. |
| TerminalIn.KeyInput | clink/terminal/src/win_terminal_in.cpp:139-264 | process_input pushes at most two items, every sequence a valid table entry. |
| TerminalIn.AltCodeRepaired | clink/terminal/src/win_terminal_in.cpp:117-126 | An Alt key-up with a character becomes a key-down with no modifiers; anything else is left as it is. |
| TerminalIn.EventInputAsWritten | clink/terminal/src/win_terminal_in.cpp:114-131 | read_console's handling of one key record, as written, pushes at most two items. |
| TerminalIn.AltCodeDropped | clink/terminal/src/win_terminal_in.cpp:117-130 | The repaired Alt+numpad record keeps VK_MENU, so process_input discards it (lines 150-151) and nothing is pushed. |
| TerminalIn.EventInput | clink/terminal/src/win_terminal_in.cpp:114-131 | With the repair completed, key-ups push nothing and key-downs push what process_input pushes. |
| TerminalIn.AltCodeDelivered | clink/terminal/src/win_terminal_in.cpp:117-131 | The Alt+numpad character is pushed as a plain value. |
| TerminalIn.CtrlLetters | clink/terminal/src/win_terminal_in.cpp:252-253 | Ctrl+A..Z are exactly the keys whose C0 code is 1..26, the letter's position. |
| TerminalIn.CtrlCodeInjective | clink/terminal/src/win_terminal_in.cpp:249-262 | Distinct keys give distinct Ctrl codes. |
| TerminalIn.ModifierIndexDecodes | clink/terminal/src/win_terminal_in.cpp:228-232 | The modifier index determines shift, alt and ctrl. |
| TerminalIn.FunctionKeyIndexDecodes | clink/terminal/src/win_terminal_in.cpp:174-180 | The kf index determines the key and the shift and ctrl state. |
| TerminalIn.ArrowRowsAreXterm | clink/terminal/src/win_terminal_in.cpp:12-15 | The arrow rows are xterm's CSI 1;m letter sequences. |
| TerminalIn.HomeEndRowsAreXterm | clink/terminal/src/win_terminal_in.cpp:18-19 | The home and end rows are the letter form with H and F. |
| TerminalIn.InsertDeleteRowsAreXterm | clink/terminal/src/win_terminal_in.cpp:16-17 | The insert and delete rows are xterm's CSI n;m ~ sequences with 2 and 3. |
| TerminalIn.PageRowsAreXterm | clink/terminal/src/win_terminal_in.cpp:20-21 | The page rows are the tilde form with 5 and 6. |
| TerminalIn.CursorTableIsXterm | clink/terminal/src/win_terminal_in.cpp:12-21 | Every cursor-block entry is xterm's sequence whose modifier number is the index plus one. |
| TerminalIn.AltGrCharacterPlain | clink/terminal/src/win_terminal_in.cpp:153-166 | A printable character typed with AltGr is pushed alone, without the ESC of Alt. |
| TerminalIn.CtrlLetterInput | clink/terminal/src/win_terminal_in.cpp:249-262 | Ctrl with a letter and no character pushes its C0 code, after ESC when Alt is held. |
| TerminalIn.CursorKeyInput | clink/terminal/src/win_terminal_in.cpp:187-244 | A cursor-block key pushes its row's sequence at the modifier index of the keys held. |
| TerminalIn.BackTabOnlyWhenEmpty | clink/terminal/src/win_terminal_in.cpp:168-170 | Back-tab is pushed only into an empty buffer, for Tab with Shift. |
| TerminalIn.ModifierAloneSilent | clink/terminal/src/win_terminal_in.cpp:150-151 | Bare Shift, Ctrl and Alt presses push nothing. |
| TerminalIn.Wrap | clink/terminal/src/win_terminal_in.cpp:270-276 | index & mask is the index or the index less the size, for every index the buffer forms. |
| TerminalIn.Ring | clink/terminal/src/win_terminal_in.cpp:267-317 | The queued bytes in ring order have the count's length. |
| TerminalIn.RingPush | clink/terminal/src/win_terminal_in.cpp:273-276 | Storing in the slot after the last queued byte appends it. |
| TerminalIn.RingPop | clink/terminal/src/win_terminal_in.cpp:307-317 | Moving the head one slot drops the first queued byte. |
| TerminalIn.Chars | clink/terminal/src/win_terminal_in.cpp:275 | The bytes of a C string before its NUL. |
| TerminalIn.CharsPrefix | clink/terminal/src/win_terminal_in.cpp:275 | A NUL-free prefix is a prefix of the C string, all of it when a NUL or the end follows. |
| TerminalIn.Queued | clink/terminal/src/win_terminal_in.cpp:267-277 | push of a string stores as much of it as fits and nothing once the buffer is full. |
| TerminalIn.ValueQueued | clink/terminal/src/win_terminal_in.cpp:280-304 | push of a value stores an ASCII value as one byte and a wider one as its UTF-8 bytes when they leave a slot free, otherwise nothing. |
| TerminalIn.Fed | clink/terminal/src/win_terminal_in.cpp:139-264 | One push keeps the queue within its size and only appends. |
| TerminalIn.FedAll | clink/terminal/src/win_terminal_in.cpp:139-264 | The pushes of one event keep the queue within its size and only append. |
| TerminalIn.InputBuffer.constructor | clink/terminal/src/win_terminal_in.cpp:49-54 | A new buffer of power-of-two size is empty. |
| TerminalIn.InputBuffer.Begin | clink/terminal/src/win_terminal_in.cpp:49-54 | begin empties the buffer. |
| TerminalIn.InputBuffer.PushSeq | clink/terminal/src/win_terminal_in.cpp:267-277 | push of a string makes the queue Queued. |
| TerminalIn.InputBuffer.PushValue | clink/terminal/src/win_terminal_in.cpp:280-304 | Corrected (see Findings): push of a value makes the queue ValueQueued, with the count kept to the bytes stored. |
| TerminalIn.InputBuffer.Append | clink/terminal/src/win_terminal_in.cpp:296-301 | Bytes that fit are stored after the queued ones. |
| TerminalIn.InputBuffer.PushValueAsWritten | clink/terminal/src/win_terminal_in.cpp:280-304 | As written the count grows by the encoding's length even when nothing was stored. |
| TerminalIn.InputBuffer.Pop | clink/terminal/src/win_terminal_in.cpp:307-317 | pop returns 0xff on an empty buffer, else the oldest byte, which it removes, and advances the head modulo the size. |
| TerminalIn.InputBuffer.Read | clink/terminal/src/win_terminal_in.cpp:71-77 | read returns input_none when empty, else the popped byte. |
| TerminalIn.InputBuffer.Drain | clink/terminal/src/win_terminal_in.cpp:307-317 | Popping until empty, as read does at lines 71-77, yields the queue in order. |
| TerminalIn.InputBuffer.Feed | clink/terminal/src/win_terminal_in.cpp:139-264 | One push of process_input applied to the buffer, values through the corrected PushValue (see Findings). |
| TerminalIn.InputBuffer.ProcessInput | clink/terminal/src/win_terminal_in.cpp:139-264 | process_input queues exactly the pushes of KeyInput, the buffer's emptiness deciding back-tab; values go through the corrected PushValue (see Findings). |
| TerminalIn.QueueRoundTrip | clink/terminal/src/win_terminal_in.cpp:267-317 | Bytes pushed into an empty buffer with room for them pop out in order. |
| TerminalIn.WideValueOvercounts | clink/terminal/src/win_terminal_in.cpp:280-304 | Four slots holding two bytes: pushing U+20AC stores nothing yet counts five bytes. |
| TerminalIn.WideValueDropped | clink/terminal/src/win_terminal_in.cpp:280-304 | With the count kept to the bytes stored, the wide character is dropped and the queue stays within its slots. |
| Ecma48.SgrToAttrSwapsRedBlue | clink/terminal/src/ecma48_terminal.cpp:474 | sgr_to_attr swaps the red and blue bits and keeps green. |
| Ecma48.SgrReset | clink/terminal/src/ecma48_terminal.cpp:481-484 | 0 restores the default attribute. |
| Ecma48.SgrBold | clink/terminal/src/ecma48_terminal.cpp:485-488 | 1 sets foreground intensity and changes no other bit. |
| Ecma48.SgrNormalIntensity | clink/terminal/src/ecma48_terminal.cpp:489-492 | 2 and 22 clear foreground intensity only. |
| Ecma48.SgrBackgroundIntensity | clink/terminal/src/ecma48_terminal.cpp:493-500 | 4 sets and 24 clears background intensity only. |
| Ecma48.SgrForeground | clink/terminal/src/ecma48_terminal.cpp:501-504 | 30-37 put the table colour in the foreground bits, keep the other low bits and clear the high byte. |
| Ecma48.SgrBrightForeground | clink/terminal/src/ecma48_terminal.cpp:505-509 | 90-97 do the same and set foreground intensity. |
| Ecma48.SgrBackground | clink/terminal/src/ecma48_terminal.cpp:514-517 | 40-47 put the table colour in the background bits. |
| Ecma48.SgrBrightBackground | clink/terminal/src/ecma48_terminal.cpp:518-522 | 100-107 do the same and set background intensity. |
| Ecma48.SgrDefaultForeground | clink/terminal/src/ecma48_terminal.cpp:510-513 | 39 restores the default foreground colour bits. |
| Ecma48.SgrDefaultBackground | clink/terminal/src/ecma48_terminal.cpp:523-526 | 49 restores the default background colour bits. |
| Ecma48.SgrUnsupported | clink/terminal/src/ecma48_terminal.cpp:476-541 | Every other parameter leaves the attribute alone. |
| Ecma48.SgrApplyCode | clink/terminal/src/ecma48_terminal.cpp:476-541 | An ordinary code is applied and the list moves on one. |
| Ecma48.SgrApplyExtended | clink/terminal/src/ecma48_terminal.cpp:527-540 | A 38 or 48 with a selector skips the selector and its arguments. |
| Ecma48.ResetForgetsAttr | clink/terminal/src/ecma48_terminal.cpp:481-484 | After a 0 the attribute held before no longer matters. |
| Ecma48.PaletteColourSkipped | clink/terminal/src/ecma48_terminal.cpp:527-540 | 38;5;n and 48;5;n leave the attribute alone and are consumed whole. |
| Ecma48.RgbColourSkipped | clink/terminal/src/ecma48_terminal.cpp:527-540 | 38;2;r;g;b and 48;2;r;g;b leave the attribute alone and are consumed whole. |
| Ecma48.ColoursIndependent | clink/terminal/src/ecma48_terminal.cpp:501-517 | A foreground colour keeps the background bits and a background colour the foreground bits. |
| Ecma48.Terminal.constructor | clink/terminal/src/ecma48_terminal.cpp:308-315 | A new terminal has attribute and default 0, with SGR enabled. |
| Ecma48.Terminal.Begin | clink/terminal/src/ecma48_terminal.cpp:323-330 | The console's attributes become the default and the current attribute. |
| Ecma48.Terminal.WriteSgr | clink/terminal/src/ecma48_terminal.cpp:472-545 | write_sgr leaves the attribute SgrApply of the parameters. |
| Ecma48.Terminal.SgrTurn | clink/terminal/src/ecma48_terminal.cpp:476-541 | One turn of the loop keeps SgrApply of the rest and moves forward. |
| Ecma48.Terminal.WriteCsi | clink/terminal/src/ecma48_terminal.cpp:345-358 | A CSI ending in 'm' applies the SGR parameters while SGR is enabled; anything else leaves the attribute alone. |
| Ecma48.XtermInput.constructor | clink/terminal/src/ecma48_terminal.cpp:37-41 | A new input queue is empty. |
| Ecma48.XtermInput.Push | clink/terminal/src/ecma48_terminal.cpp:265-289 | push of a value makes the queue ValueQueued, with the count kept to the bytes stored. |
| Ecma48.XtermInput.Pop | clink/terminal/src/ecma48_terminal.cpp:292-303 | pop returns 0xff when empty, else removes and returns the oldest byte. |
| MatchesLookaside.SanitisedByte | clink/lib/src/matches_lookaside.cpp:26-28 | CR, LF and, unless tabs are allowed, tab become a space; every other byte is kept. |
| MatchesLookaside.Sanitised | clink/lib/src/matches_lookaside.cpp:23-29 | The copy keeps the length and sanitises each byte. |
| MatchesLookaside.SanitisedIsCString | clink/lib/src/matches_lookaside.cpp:23-29 | Sanitising a C string gives a C string. |
| MatchesLookaside.CLenFrom | clink/lib/src/matches_lookaside.cpp:234 | strlen moves to the next NUL. |
| MatchesLookaside.CLenFromOf | clink/lib/src/matches_lookaside.cpp:234 | With the first NUL at k, strlen from i is k - i. |
| MatchesLookaside.CalcPackedSize | clink/lib/src/matches_lookaside.cpp:75-89 | Three NULs, the type, append-char and flags bytes, the strings and the debug mark. |
| MatchesLookaside.PackedSize | clink/lib/src/matches_lookaside.cpp:75-159 | The record pack_match writes fills exactly the size calc_packed_size reserves. |
| MatchesLookaside.U16 | clink/lib/src/matches_lookaside.cpp:242-243 | The cast to unsigned short keeps values below 0x10000. |
| MatchesLookaside.ReadExtra | clink/lib/src/matches_lookaside.cpp:234-243 | add() reads the type, append char and flags after the match's NUL and two 16-bit offsets. |
| MatchesLookaside.StringAtSplit | clink/lib/src/matches_lookaside.cpp:243 | A string laid out at k with its NUL is the C string there. |
| MatchesLookaside.CLenFromShift | clink/lib/src/matches_lookaside.cpp:243 | strlen from k + j is strlen from j of the tail at k. |
| MatchesLookaside.LayoutReadsBack | clink/lib/src/matches_lookaside.cpp:225-251 | A record laid out from plain pieces reads back as those pieces. |
| MatchesLookaside.ReadExtraAt | clink/lib/src/matches_lookaside.cpp:234-243 | What add() reads from a record with a match of length n and a display of length tl. |
| MatchesLookaside.PackedReadsBack | clink/lib/src/matches_lookaside.cpp:225-251 | add() reads back the type, append char and flags pack_match wrote, and its offsets point at the packed display and description. |
| MatchesLookaside.AppendStringIntoBuffer | clink/lib/src/matches_lookaside.cpp:20-32 | The sanitised string and a NUL are written at the position, which moves past them; nothing after is touched. |
| MatchesLookaside.PutBytes | clink/lib/src/matches_lookaside.cpp:116-125 | The bytes are stored at the position and nothing after it changes. |
| MatchesLookaside.PackMatch | clink/lib/src/matches_lookaside.cpp:92-159 | An empty match, or an empty display, is refused unless the record is for the common prefix; a refused empty match writes nothing; otherwise the buffer starts with the packed record and nothing after it changes. |
| MatchesLookaside.PackTail | clink/lib/src/matches_lookaside.cpp:116-156 | The extra bytes, then the display and the description each with a NUL. |
| MatchesLookaside.EmplaceThenFind | clink/lib/src/matches_lookaside.cpp:216-222 | After emplace (line 245) the key is found with its record, unless it was already there, and the table keeps the other keys. |
| MatchesLookaside.EmplacedKeeps | clink/lib/src/matches_lookaside.cpp:245 | Entries already in the table survive any run of additions. |
| MatchesLookaside.EmplacedFinds | clink/lib/src/matches_lookaside.cpp:245 | A pointer with no null before it is found with the record of its first occurrence. |
| MatchesLookaside.EmplacedKeys | clink/lib/src/matches_lookaside.cpp:245 | Every key in the table is the address of an added pointer. |
| MatchesLookaside.Lookaside.constructor | clink/lib/src/matches_lookaside.cpp:195-202 | Every match after the common-prefix entry is added, up to the list's null. Each call is `Add(matches[i], true)`, so every allocation made while building the table is taken to succeed. |
| MatchesLookaside.Lookaside.Add | clink/lib/src/matches_lookaside.cpp:225-251 | A null pointer or a failed allocation adds nothing and returns false; otherwise the record's fields are stored under the address unless already there. |
| MatchesLookaside.Lookaside.Find | clink/lib/src/matches_lookaside.cpp:216-222 | find returns the stored fields exactly when the address is in the table. |
| DisplayMatches.GrowSize | clink/lib/src/display_matches.cpp:112-120 | The doubled capacity holds the need, is at least the start, and is below twice the need when it grew. |
| DisplayMatches.PadReachesWidth | clink/lib/src/display_matches.cpp:614-624 | Padding reaches the requested width exactly when the text is shorter; otherwise a single separating space is added only for an unselected entry with a non-negative width. |
| DisplayMatches.Spaces | clink/lib/src/display_matches.cpp:631-638 | A run of n spaces. |
| DisplayMatches.ExactMatch | clink/lib/src/display_matches.cpp:658-668 | exact_match holds exactly when the match string is the first len characters of the text. |
| DisplayMatches.PrefixBitAsWrittenMissesPrefix | clink/lib/src/display_matches.cpp:709-711 | As written, "match symbol" is not taken to start with "match". |
| DisplayMatches.PrefixBitIsPrefix | clink/lib/src/display_matches.cpp:706-711 | With the match's length, the prefix test holds exactly when the segment starts with the match. |
| DisplayMatches.SuffixBitIsSuffix | clink/lib/src/display_matches.cpp:712-714 | The suffix test holds exactly when the segment ends with the match. |
| DisplayMatches.TmpBuf.constructor | clink/lib/src/display_matches.cpp:76-80 | The buffer starts empty with no allocation and the mark at 0. |
| DisplayMatches.TmpBuf.Mark | clink/lib/src/display_matches.cpp:85-88 | The mark is set at the current length. |
| DisplayMatches.TmpBuf.Reset | clink/lib/src/display_matches.cpp:91-96 | The buffer is emptied and the mark set at 0, keeping the allocation. |
| DisplayMatches.TmpBuf.Rollback | clink/lib/src/display_matches.cpp:99-103 | The contents go back to what they were at the mark. |
| DisplayMatches.TmpBuf.Grow | clink/lib/src/display_matches.cpp:106-125 | Room is made for growby bytes and a NUL, the capacity doubling from 30 when it grows; the contents are kept. |
| DisplayMatches.TmpBuf.AppendChar | clink/lib/src/display_matches.cpp:128-135 | One char is appended. |
| DisplayMatches.TmpBuf.AppendString | clink/lib/src/display_matches.cpp:138-148 | len characters, or the whole C string when len is negative, are appended. |
| DisplayMatches.TmpBuf.GetRollback | clink/lib/src/display_matches.cpp:159-164 | The text since the mark, NUL-terminated, is returned, with the contents unchanged. |
| DisplayMatches.TmpBuf.PadFilename | clink/lib/src/display_matches.cpp:614-643 | pad_filename appends the default colour, PadSpaces spaces and the trailing colour as Padding says. |
| DisplayMatches.TmpBuf.AppendSpaces | clink/lib/src/display_matches.cpp:631-638 | The loop appends num spaces in chunks of at most 48. |
| DisplayMatches.CopyInto | clink/lib/src/display_matches.cpp:145 | memcpy stores the bytes at the position and leaves what precedes them alone. |
| HistSearch.FindInLine | readline/readline/histsearch.c:119-236 | The scan of one line returns the position LineHit gives, or -1; LineHit uses the corrected forward limit (see Findings), not line 204's. |
| HistSearch.ScanUpFirst | readline/readline/histsearch.c:201-235 | The forward scan reports the first start position below the limit at which the test holds. |
| HistSearch.ScanUpNone | readline/readline/histsearch.c:201-235 | The forward scan fails exactly when no start position below the limit passes. |
| HistSearch.ScanDownLast | readline/readline/histsearch.c:165-197 | The reverse scan reports the last start position at or below its start at which the test holds. |
| HistSearch.ScanDownNone | readline/readline/histsearch.c:165-197 | The reverse scan fails exactly when no position at or below its start passes. |
| HistSearch.AnchoredMatchesAtStart | readline/readline/histsearch.c:124-159 | An anchored string search finds a line exactly when the line starts with the string, and reports 0. |
| HistSearch.ForwardFindsLeftmost | readline/readline/histsearch.c:199-235 | A forward string search reports the leftmost occurrence and fails exactly when there is none. |
| HistSearch.ReverseFindsRightmost | readline/readline/histsearch.c:162-198 | A reverse string search reports the rightmost occurrence and fails exactly when there is none. |
| HistSearch.DirectionsAgree | readline/readline/histsearch.c:162-235 | With the corrected forward limit, a line is found forwards exactly when it is found backwards, for strings and patterns. |
| HistSearch.PlainLimitAsWritten | readline/readline/histsearch.c:204 | For a string search the corrected limit is the one computed. |
| HistSearch.ScanUpCut | readline/readline/histsearch.c:201-204 | Lowering the forward limit keeps a hit below the new limit and loses one at or past it. |
| HistSearch.AsWrittenIsCutHit | readline/readline/histsearch.c:119-236 | For every line, the scan as written (limit of line 204) gives the corrected hit, except that a forward hit at or past line_index - string_len + 1 is lost. |
| HistSearch.ForwardPatternMissesShortLine | readline/readline/histsearch.c:204 | As written, a forward search for the pattern "*a*" misses the line "a", which the reverse search finds at 0. |
| HistSearch.SearchTrivial | readline/readline/histsearch.c:93-98 | An empty string, an empty history, or a forward search from the end finds nothing. |
| HistSearch.ScanFindsNearest | readline/readline/histsearch.c:107-238 | The scan of the list stops at the first entry, in its direction, that holds a hit. |
| HistSearch.ScanNone | readline/readline/histsearch.c:107-238 | The scan finds nothing exactly when no entry ahead holds a hit. |
| HistSearch.History.constructor | readline/readline/histsearch.c:72-101 | The history holds its lines and offset. |
| HistSearch.History.SearchInternal | readline/readline/histsearch.c:72-239 | On success history_offset names the entry found and the result is the position in its line; otherwise -1 and nothing changes. Lines are searched with the corrected forward limit. |
| HistSearch.History.HistorySearch | readline/readline/histsearch.c:304-308 | A non-anchored string search. |
| HistSearch.History.HistorySearchPrefix | readline/readline/histsearch.c:311-315 | An anchored string search. |
| HistSearch.History.SetPos | readline/readline/histsearch.c:333 | history_set_pos moves the offset only to an entry or the end of the list. |
| HistSearch.History.HistorySearchPos | readline/readline/histsearch.c:327-341 | The entry a search from pos finds, or -1; history_offset is restored either way. |
| HistSearch.History.PatSearch | readline/readline/histsearch.c:243-299 | With fnmatch, a pattern ending in an unescaped backslash is refused and any other wrapped in '*' and searched as a pattern; without fnmatch the string is searched as it is. Lines are searched with the corrected forward limit. |
| HistSearch.TrailingBackslashes | readline/readline/histsearch.c:254-260 | The run of backslashes ending the string. |
| HistSearch.EndsInUnescapedBackslash | readline/readline/histsearch.c:254-262 | The loop toggles once per trailing backslash, so it refuses exactly an odd run. |
| HistSearch.PatternFor | readline/readline/histsearch.c:263-285 | The pattern is the string, after a '*' when unanchored and not already starting with one, and ending in '*'. |
| Autorun.FindFromLeftmost | clink/app/src/loader/autorun.cpp:128 | strstr reports the leftmost occurrence at or after the start. |
| Autorun.FindFromNone | clink/app/src/loader/autorun.cpp:128 | strstr fails exactly when the needle occurs nowhere. |
| Autorun.CharFromFirst | clink/app/src/loader/autorun.cpp:141 | strchr reports the first position of the char, or none. |
| Autorun.LastAboveIs | clink/app/src/loader/autorun.cpp:159-174 | The backwards walk stops at the last position above 0 holding the char. |
| Autorun.LastAboveNone | clink/app/src/loader/autorun.cpp:159-174 | The walk reaches the start exactly when no position above 0 holds the char. |
| Autorun.NeedlesNonEmpty | clink/app/src/loader/autorun.cpp:114-123 | Every needle has a character. |
| Autorun.TagFromNone | clink/app/src/loader/autorun.cpp:126-138 | No tag is found exactly when no needle occurs anywhere. |
| Autorun.TagFromSome | clink/app/src/loader/autorun.cpp:126-133 | A tag is the first occurrence of the first needle, in table order, that occurs. |
| Autorun.FindTag | clink/app/src/loader/autorun.cpp:126-133 | The needle loop computes TagFrom. |
| Autorun.FindClinkEntry | clink/app/src/loader/autorun.cpp:107-178 | The entry is found exactly when a needle occurs; the right extent is the first '&' after the tag or the end, and the left extent comes from the backwards walk, through the opening quote when the path is quoted. |
| Autorun.WalkLeft | clink/app/src/loader/autorun.cpp:157-175 | The walk computes LeftExtent, stepping onto the first of a "&&" pair. |
| Autorun.CmdStart | clink/app/src/loader/autorun.cpp:181-189 | get_cmd_start skips white space and '&' and stops at the first other char. |
| Autorun.SpliceOut | clink/app/src/loader/autorun.cpp:215-225 | The copy loop squeezes [left, right) out of the value in place, keeping the terminator. |
| Autorun.UninstallStoresCommand | clink/app/src/loader/autorun.cpp:227-239 | A stored value is never empty and never starts with a space or '&'. |
| Autorun.StoreValue | clink/app/src/loader/autorun.cpp:55-69 | get_value yields the value and its terminator in a fresh buffer. |
| Autorun.SplicedPrefix | clink/app/src/loader/autorun.cpp:215-225 | The spliced buffer starts with the value minus the cut. |
| Autorun.SqueezedIs | clink/app/src/loader/autorun.cpp:215-225 | What the copy loop leaves before the terminator is the value with [left, right) cut out. |
| Autorun.SpliceValue | clink/app/src/loader/autorun.cpp:205-225 | get_value's copy of the value with [left, right) squeezed out in place reads, up to its terminator, as the value without that span. |
| Autorun.UninstallAutorun | clink/app/src/loader/autorun.cpp:192-246 | No entry: nothing changes; a value left with only separators and spaces is deleted; otherwise the rest from its first command is stored. |
| Autorun.InstallText | clink/app/src/loader/autorun.cpp:270-285 | The built text never exceeds the buffer (the current value's length plus 2048, terminator included) and starts with the current value and '&' when there is one. |
| Autorun.InstallValue | clink/app/src/loader/autorun.cpp:250-297 | The stored value is a tail of the text built after uninstalling, and starts at a command, never at a space or '&' (get_cmd_start, lines 181-189). |
| Autorun.InstallAppendsEntry | clink/app/src/loader/autorun.cpp:272-282 | When it fits, the built text is the current value, '&' and Clink's entry. |
| Autorun.OccursAfterPrefix | clink/app/src/loader/autorun.cpp:128 | An occurrence survives text put in front. |
| Autorun.OccursAfterDrop | clink/app/src/loader/autorun.cpp:285 | An occurrence survives dropping text before it. |
| Autorun.EntryHoldsNeedle | clink/app/src/loader/autorun.cpp:278 | The entry install_autorun writes holds the needle 'clink.bat" inject'. |
| Autorun.InstallTextFits | clink/app/src/loader/autorun.cpp:270-285 | With path and arguments under 2000 characters the built text is never cut: it is the current value and '&' (when there is one) followed by the entry. |
| Autorun.EntryFoundAfter | clink/app/src/loader/autorun.cpp:285-287 | Whatever text stands before Clink's entry, the tag is found in what get_cmd_start leaves of it. |
| Autorun.InstalledEntryIsFound | clink/app/src/loader/autorun.cpp:250-297 | An installed entry that fits is found again by find_clink_entry (lines 107-138). |
| Prompts.IsTagged | clink/lua/src/prompt.cpp:385-403 | is_tagged returns the hidden tag's length when the counted text starts with it, else the visible tag's length when it starts with that, else 0; a tag longer than the count is skipped. |
| Prompts.TaggedTextSplitsTag | clink/lua/src/prompt.cpp:356-362 | A prompt is stored exactly when the text is tagged, and it is the counted text after one of the accepted tags. |
| Prompts.TaggedTextAsWrittenAgrees | clink/lua/src/prompt.cpp:356-362 | The source's result agrees with the corrected reading except when the count equals the tag's length. |
| Prompts.TaggedSetReadsPastCount | clink/lua/src/prompt.cpp:356-362 | A write of exactly "@CLINK_PROMPT" followed in memory by "xyz" is taken as the prompt "xyz", since a remaining count of 0 means "up to the terminator". |
| Prompts.TagTextIsTagged | clink/lua/src/prompt.cpp:365-382 | tag always yields a tagged value. |
| Prompts.TagIdempotent | clink/lua/src/prompt.cpp:370-374 | tag stores an already-tagged value unchanged. |
| Prompts.TagThenSet | clink/lua/src/prompt.cpp:356-382 | tag then tagged_prompt::set gives back the untagged text, or the text after its own tag. |
| Prompts.Prompt.constructor | clink/lua/src/prompt.cpp:290-293 | A new prompt is unset. |
| Prompts.Prompt.Clear | clink/lua/src/prompt.cpp:317-323 | clear leaves the prompt unset. |
| Prompts.Prompt.IsSet | clink/lua/src/prompt.cpp:348-351 | is_set holds exactly when a prompt is stored. |
| Prompts.Prompt.Set | clink/lua/src/prompt.cpp:332-345 | A null source leaves the prompt unset; otherwise the first count characters, or the whole string for a count of 0 or less, are stored. |
| Prompts.Prompt.TaggedSet | clink/lua/src/prompt.cpp:356-362 | Corrected (see Findings): tagged_prompt::set stores the counted text after an accepted tag, and an empty prompt when the count is exactly the tag; untagged text leaves the prompt unset. |
| Prompts.Prompt.Tag | clink/lua/src/prompt.cpp:365-382 | tag stores TagText of the value. |
| Prompts.DropLast | clink/lua/src/prompt.cpp:588-609 | The output loses its last character, and nothing happens to an empty output. |
| Prompts.Pluses | clink/lua/src/prompt.cpp:658-659 | One '+' per pushd level. |
| Prompts.TrimSpaces | clink/lua/src/prompt.cpp:665-676 | Trailing spaces are removed and nothing else. |
| Prompts.ExpandPromptCodes | clink/lua/src/prompt.cpp:534-679 | The loop computes Expand: whether it succeeded and the output with the expansion appended. |
| Prompts.EmptyInputFails | clink/lua/src/prompt.cpp:536-537 | An empty input reports failure and leaves the output alone. |
| Prompts.LiteralStep | clink/lua/src/prompt.cpp:566-578 | A literal code appends its text ($A '&', $B '\|', $C '(', $E ESC, $F ')', $G '>', $L '<', $Q '=', $S space, $_ CR LF, $$ '$'). |
| Prompts.BackspaceStep | clink/lua/src/prompt.cpp:588-609 | $H deletes the last character of the output so far. |
| Prompts.SecondPlusFails | clink/lua/src/prompt.cpp:650-655 | With omit_pushd, a second $+ fails the expansion. |
| Prompts.FirstPlusCounted | clink/lua/src/prompt.cpp:650-655 | With omit_pushd, the first $+ adds nothing and is counted. |
| Prompts.PlainRunCopies | clink/lua/src/prompt.cpp:556-560 | Text without codes is copied unchanged. |
| Prompts.SingleLineStopsAtNewline | clink/lua/src/prompt.cpp:551-552 | In single-line mode the expansion stops, successfully, at the first line break. |
| Prompts.SingleLineStopsAtBreakCode | clink/lua/src/prompt.cpp:562-564 | A single-line expansion also stops at $_. |
| Suggest.AsUnsigned | clink/lib/src/suggestions.cpp:168-180 | The signed history index compares with the unsigned removed index as its 32-bit unsigned value: unchanged when non-negative, at least 2^31 when negative. |
| Suggest.Dec32 | clink/lib/src/suggestions.cpp:179-180 | Decrementing a history index subtracts one, with 32-bit wrap-around at the minimum. |
| Suggest.Shift | clink/lib/src/suggestions.cpp:179-180 | Renumbering an item changes only its history index, which drops by one exactly when it lies above the removed entry. |
| Suggest.Without | clink/lib/src/suggestions.cpp:168-185 | The items kept by removal are exactly those that do not refer to the removed entry. |
| Suggest.ShiftAll | clink/lib/src/suggestions.cpp:179-180 | Renumbering every item keeps the count and renumbers each item in its place. |
| Suggest.Renumber | clink/lib/src/suggestions.cpp:168-185 | Removal never lengthens the list. |
| Suggest.RenumberIsShiftedRemainder | clink/lib/src/suggestions.cpp:168-185 | Removal is the same as dropping every item of that entry and then renumbering the rest, order kept. |
| Suggest.RenumberAppend | clink/lib/src/suggestions.cpp:171-184 | Removal works item by item, so the result for a concatenation is the concatenation of the results. |
| Suggest.RenumberStep | clink/lib/src/suggestions.cpp:173-183 | One loop step either erases the current item or renumbers it and moves past it, leaving the final result unchanged. |
| Suggest.Suggestions.Clear | clink/lib/src/suggestions.cpp:130-136 | clear empties the line and the items, stores the generation and clears the dirtied flag. |
| Suggest.Suggestions.Add | clink/lib/src/suggestions.cpp:145-158 | add appends exactly one item holding the given fields and changes nothing else. |
| Suggest.Suggestions.Remove | clink/lib/src/suggestions.cpp:161-165 | remove erases exactly item i, keeps the others in order and sets dirtied. |
| Suggest.Suggestions.RemoveIfHistoryIndex | clink/lib/src/suggestions.cpp:168-185 | The in-place loop leaves exactly the renumbered remainder of the items and sets dirtied. |
| Suggest.NextGenerationIsNonZero | clink/lib/src/suggestions.cpp:543-549 | new_generation never yields 0: it is the 32-bit increment, and 1 after wrap-around. |
| Suggest.GenerationCounter.constructor | clink/lib/src/suggestions.cpp:190 | The generation counter starts at 0. |
| Suggest.GenerationCounter.NewGeneration | clink/lib/src/suggestions.cpp:543-549 | new_generation stores and returns the next generation. |
| TextList.AdvanceIndex | clink/lib/src/textlist_impl.cpp:739-752 | advance_index keeps an index that was in range in range, moves it by direction when the move stays in range, and wraps a single step around both ends. |
| TextList.NonEmpty | clink/lib/src/textlist_impl.cpp:384-391 | The number of columns holding text is at most the number of columns. |
| TextList.Count | clink/lib/src/textlist_impl.cpp:396-401 | The number of pending columns is at most the number of columns. |
| TextList.CountNonEmpty | clink/lib/src/textlist_impl.cpp:384-401 | The divisor counted from the pending flags equals the number of columns that hold text. |
| TextList.ZeroIsFair | clink/lib/src/textlist_impl.cpp:393 | When no width remains after padding, all-zero widths meet the fairness property. |
| TextList.CountCut | clink/lib/src/textlist_impl.cpp:405-418 | When the pending columns are exactly those longer than the threshold, the divisor is the number of columns cut at it. |
| TextList.FairAtIsFair | clink/lib/src/textlist_impl.cpp:403-434 | Widths set by a last threshold at or above the first share meet the fairness property for that share. |
| TextList.SettledFit | clink/lib/src/textlist_impl.cpp:403-418 | After a pass at a threshold no smaller than the last one, every column no longer pending fits in the new threshold. |
| TextList.SharedAt | clink/lib/src/textlist_impl.cpp:420-434 | Pending columns cut to the threshold and all others at their longest text within it are the widths for that threshold, and the pending columns are exactly the ones cut. |
| TextList.Columns.constructor | clink/lib/src/textlist_impl.cpp:1715 | A new column set has no text and no widths; col_padding is at most 2. |
| TextList.Columns.MarkPending | clink/lib/src/textlist_impl.cpp:381-391 | All widths are cleared, a column is pending exactly when it holds text, and each such column's padding is taken from the width available. |
| TextList.Columns.CountPending | clink/lib/src/textlist_impl.cpp:395-401 | The divisor is the number of pending columns. |
| TextList.Columns.SettleColumn | clink/lib/src/textlist_impl.cpp:410-417 | A pending column that fits gets exactly its longest text; it is no longer pending, the divisor drops by one and the width left drops by that amount. |
| TextList.Columns.SettlePass | clink/lib/src/textlist_impl.cpp:403-418 | After one pass every column still pending is longer than the threshold and every column settled in the pass fits in it; share is set exactly when no column was settled, and then the width left is unchanged. |
| TextList.Columns.SharePass | clink/lib/src/textlist_impl.cpp:420-434 | Corrected share (see Findings): each pending column gets the threshold, below its longest text; every other column keeps its longest text; the width left is the width before less threshold times the pending count, and stays non-negative. |
| TextList.Columns.Distribute | clink/lib/src/textlist_impl.cpp:393-437 | Corrected share (see Findings). The settle-and-share loop ends at a last threshold t, no smaller than the first share: each column whose longest text fits in t gets it (an empty column gets 0), every other column gets t, and when some column is cut the width left over is non-negative and below the number of cut columns. The widths also meet the fairness property. |
| TextList.Columns.CalcWidths | clink/lib/src/textlist_impl.cpp:379-440 | calc_widths returns the width left after padding and the assigned widths; with nothing left after padding all widths are 0; no column exceeds its longest text; a column that fits in the fair share gets exactly its longest text; all columns that are cut get the same width. With the corrected share (see Findings), there is a last threshold t, no smaller than the fair share, such that each column whose longest text fits in t gets it, an empty column gets 0, every other column gets t, and when width remained after padding and some column is cut, the width returned is below the number of cut columns. |
| TextList.ShareAsWritten | clink/lib/src/textlist_impl.cpp:423-431 | The sharing step as written gives one width per column. |
| TextList.ShareAsWrittenLosesWidth | clink/lib/src/textlist_impl.cpp:423-431 | As written, two 20-cell columns sharing 10 cells get 2 and 5 cells, while the width reported as left over is 0. |
| TextList.Window.constructor | clink/lib/src/textlist_impl.cpp:460-463 | A new list window has top 0, index 0 and nothing displayed, for the given count and visible rows. |
| TextList.Window.SetTop | clink/lib/src/textlist_impl.cpp:1811-1820 | set_top stores the top and forgets what was displayed exactly when the top changes. |
| TextList.Window.UpdateTop | clink/lib/src/textlist_impl.cpp:1387-1403 | update_top brings the selected row into the window, m_top <= m_index < m_top + rows, and leaves the top alone when the row is already visible. |

## Left out

- Windows I/O: console, registry and file I/O, file locking, threads and clocks. Where a value comes from the system, it is a parameter, as listed above.
- Os: `get_env` is the `env` map passed to `expand_env`. The rest of `os.cpp` calls the operating system.
- Str.StrImpl.Truncate: requires `pos <= length` or `pos >= size`. For a position strictly between the length and the size, str.h:216-223 writes a NUL at pos and sets m_length to pos, so the stored length counts the old terminator and the bytes after it. The model keeps the length equal to the position of the first NUL, so it cannot hold that state. Every truncate in path.cpp (lines 199, 215, 239, 384 and 419) passes a position within the text.
- CmdTokenisers: offsets and lengths count characters, while the source takes differences of the UTF-8 iterator's byte pointer (cmd_tokenisers.cpp:109, 163). The two agree only on ASCII text.
- CmdTokenisers: the closing quote is modelled as written, the quote pair's first character (`cmd_tokenisers.cpp:76-81`). Every caller visible in the source passes `"`, whose closing quote is its opening one (the default at `word_collector.cpp:59`); the value `host_cmd.cpp` gives `reset_quote_pair` is not part of this model.
- Doskey: not modelled:
  - the cursor-point adjustment in `resolve_impl`;
  - `get_alias`, which is a console API;
  - the outer loop of `resolve`;
  - `add_alias` and `remove_alias`.
- Ecma48:
  - not modelled: `check_sgr_support`, `write_impl`, `write_c0`, `flush`, console sizes, and `xterm_input::read`/`read_console`;
  - a `push(unsigned)` on the xterm input queue keeps the count to the bytes stored, as in the `TerminalIn` finding.
- MatchesLookaside:
  - not modelled: the plainify and filter-entry handling of `pack_match`, which needs the ECMA-48 iterator and character widths;
  - allocator failure is a parameter of `Add`; the constructor passes success for every match, so a failed allocation while building the table is not modelled;
  - `matches_lookaside.h` is not part of this model, so `allow_tabs` is taken to default to false.
- DisplayMatches: not modelled:
  - the 32-bit overflow of the doubling in `grow`;
  - `xrealloc` failure;
  - the colourless append through the ECMA-48 processor;
  - cell counts.

  The default colour text is the parameter `defaultColour`.
- HistSearch:
  - `fnmatch` is a `Matcher` parameter;
  - the case-folding and multibyte branches are not modelled, because they depend on the locale;
  - `history_set_pos` (history.c) is not part of this model, so `SetPos` models only its range check.
- HistSearch.FindInLine: the forward scan uses the corrected limit `|line| - n + 1`, where n is 1 for a pattern and the length of the string otherwise, not the `line_index - string_len + 1` of histsearch.c:204. A forward pattern search therefore finds hits that the source misses, for example in lines shorter than the pattern. The limit as written is in ForwardLimitAsWritten and LineHitAsWritten, and AsWrittenIsCutHit and ForwardPatternMissesShortLine state the difference.
- HistSearch.History.SearchInternal: searches each line with FindInLine, so it uses the corrected forward limit too.
- HistSearch.History.PatSearch: searches through SearchInternal, so it uses the corrected forward limit too. It also requires a non-empty string, because `_hs_history_patsearch` reads `string[len - 1]` and an empty string would read before it.
- Autorun:
  - reading and writing the registry is not modelled;
  - `show_autorun` and the rest of the command dispatch are not modelled.
- Autorun.InstalledEntryIsFound: holds only for `|path| + |args| < 2000`, so that the 2047-character cut never truncates Clink's tag.
- SessionStreams:
  - `LUAL_BUFFERSIZE` comes from the Lua configuration, which is not part of this model. It is a constructor parameter;
  - `realloc` failure is the `allocOk` parameter;
  - not modelled: `scan_number` (which uses `sscanf`), the Lua bindings, and the named-stream map of `make_new`;
  - a seek to a negative target wraps to the maximum stream size, as the unsigned arithmetic does. `SessionStreams.SeekClamps` documents this; it is not claimed as a finding.
- TerminalIn:
  - the UTF-8 text of `to_utf8` is a parameter;
  - the F-key table is stated as literal rows without a reference definition;
  - `win_terminal_in.h` is not part of this model, so buffer size and initial state are constructor values;
  - not modelled: console mode, `begin`/`end`/`select`, and the `read_console` wait loop.
- Prompts:
  - `prompt.h` is not part of this model, so `is_tagged` as called from `tag` is taken to use a default count of 0 or less, meaning the whole string;
  - `$H` drops the last code point, abstracting the `str_iter` scan;
  - the date, time, directory, network name, version, pushd depth and command-extension state are fields of an `Env` parameter.
- Suggest: not modelled: `operator=`, `is_same`, `set_line`, and every member of `suggestion_manager` except `new_generation`.
- TextList:
  - `textlist_impl.h` is not part of this model. `max_columns` is the length of the column arrays. `col_padding` is a constructor parameter of at most 2, as the `static_assert` at `textlist_impl.cpp:1715` requires;
  - 32-bit overflow of the width arithmetic is not modelled;
  - not modelled: the rendering and input parts of the list (`update_display`, `activate`, `on_input`, `filter_items`), which are console I/O.
- TextList.Columns.SharePass, TextList.Columns.Distribute, TextList.Columns.CalcWidths: the share pass is modelled corrected. Each cut column gets the threshold, while `textlist_impl.cpp:428` gives it `available / divisor` with an `available` that drops by a full threshold at each column. `TextList.ShareAsWritten` and `TextList.ShareAsWrittenLosesWidth` model the code as written.
- TextList.Window.UpdateTop: requires the index to lie below the count, or to be 0 when the list is empty, as the callers guarantee.

- Os.ExpandRound: the point is adjusted against output positions (corrected, see Findings), while os.cpp:847 and 870-875 compare it with the input offset. `Os.PointEscapesOutput` models the adjustment as written.
- Os.ExpandEnv: runs the corrected point adjustment through Os.ExpandRound, so for "%A%%B%" with A = "xx", B = "y" and the point at 6 it gives 3 where os.cpp gives 4.
- Os.ExpandRounds: its loop carries the corrected point of Os.ExpandRound.
- Str.StrImpl.Reserve: refuses a rounded size of 0x8000 or more (corrected, see Findings). str.h:124-143 reallocates, reports success and stores the size wrapped in the 15-bit m_size; `Str.ReserveAsWritten` models that.
- Str.StrImpl.ConcatN: reserves through the corrected Str.StrImpl.Reserve. Appending 0x8040 characters to an empty growable 64-character buffer therefore stores 63 characters, where str.h:274-287 stores 127, whose room comes from the wrapped size 0x80.
- Str.StrImpl.ConcatCount: reserves through the corrected Str.StrImpl.Reserve, so it refuses to grow to 0x8000 or more where the source grows with a wrapped size.
- Str.StrImpl.Concat: appends through Str.StrImpl.ConcatN, and so through the corrected reserve.
- Str.StrImpl.Copy: copies through Str.StrImpl.ConcatN, and so through the corrected reserve.
- PathNormalise.Normalise: uses the corrected component count, which also counts components starting with '.' (see Findings), so ".git/.." becomes "" where path.cpp:134-160 keeps ".git/..". `PathNormalise.NormaliseKeepsDotDot` states the count as written.
- PathNormalise.NormaliseRound: one round with the same corrected count.
- Wildmatch.Wildmatch: computes the corrected Matches, with three corrections (see Findings). An unterminated '[' is a literal, where wildmatch.c:231-234 advances the string first. The slash search after "**" and "/" starts at the current position, where wildmatch.c:175 restarts at the start of the string. A leading "**" takes the byte before the pattern as '/', where wildmatch.c:122 reads it. `Wildmatch.BrokenBracketSkipsChar`, `Wildmatch.WildstarSearchesFromStart` and `Wildmatch.LeadingWildstarReadsBefore` state the code as written.
- Wildmatch.Step: computes the corrected Advance, so an unterminated '[' is a literal.
- Wildmatch.StarCase: computes the corrected Star, with the slash search and the leading "**" both corrected.
- Wildmatch.PlanStar: takes the byte before the pattern as '/', the corrected reading of wildmatch.c:122.
- Wildmatch.StarTail: computes the corrected StarRest, whose slash search starts at the current position.
- Wildmatch.SlashLoop: matches the rest of the pattern with the corrected Matches.
- Wildmatch.GeneralLoop: matches the rest of the pattern with the corrected Matches at each position.
- SessionStreams.SessionStream.Truncate: also writes a NUL at the new size (corrected, see Findings), where sessionstream.cpp:170-175 sets only m_size. `SessionStreams.SessionStream.TruncateAsWritten` models the code as written.
- SessionStreams.Handle.Truncate: truncates through the corrected SessionStreams.SessionStream.Truncate, so writing "123", seeking to 1 and truncating leaves a NUL at index 1 where the source leaves '2'.
- TerminalIn.InputBuffer.PushValue: keeps the count to the bytes stored (corrected, see Findings), where win_terminal_in.cpp:303 adds the encoded length even when nothing was stored. `TerminalIn.InputBuffer.PushValueAsWritten` models the code as written.
- TerminalIn.InputBuffer.Feed: pushes values through the corrected TerminalIn.InputBuffer.PushValue.
- TerminalIn.InputBuffer.ProcessInput: queues the pushes of KeyInput through the corrected TerminalIn.InputBuffer.PushValue.
- Prompts.Prompt.TaggedSet: stores an empty prompt when the count is exactly the tag's length (corrected, see Findings), where prompt.cpp:356-362 passes a count of 0 to prompt::set, which reads on to the terminator. `Prompts.TaggedSetReadsPastCount` models the code as written.

## Findings

| source | as written | input that shows it | evidently intended | confidence | as-written member | corrected member |
|---|---|---|---|---|---|---|
| clink/core/src/os.cpp:868-875 | `expand_env` compares the point, an input offset, with positions that earlier substitutions have already shifted | `"%A%%B%"` with A = "xx", B = "y" and the point at 6 gives the output "xxy" and the point 4 | the point stays within the output | not executed | Os.PointEscapesOutput | Os.CorrectedPointWithinOutput, Os.ExpandEnv |
| clink/lib/src/history_db.cpp:121-126 | an apostrophe inside a double-quoted run switches the state to single quotes | `"it's !!` with the marker at 6 is seen as outside double quotes, so mode 3 does not protect it | a quote of the other kind inside a quoted run is ordinary text | not executed | HistoryDb.ApostropheLeavesDoubleQuotes | HistoryDb.CorrectedInsideQuote |
| clink/core/include/core/str.h:73 | `reserve` stores the rounded size in the 15-bit `m_size` | `reserve(0x8000)` stores size 0 and reports success | reserve refuses a size `m_size` cannot hold | not executed | Str.ReserveAsWritten | Str.StrImpl.Reserve |
| clink/core/src/path.cpp:134-160 | `normalise` counts only components that do not start with '.', so a ".." after such a component cannot remove it | ".git/.." stays ".git/.." | ".." removes the component before it, giving "" | not executed | PathNormalise.NormaliseKeepsDotDot | PathNormalise.NormaliseCancelsDotDot, PathNormalise.Normalise |
| wildmatch/wildmatch/wildmatch.c:175 | after "**" and "/" the slash search restarts at the start of the string | the pattern x/y/ followed by two stars and /y/z matches "x/y/z" | the search continues at the current position, so there is no match | not executed | Wildmatch.WildstarSearchesFromStart | Wildmatch.WildstarSearchesFromHere, Wildmatch.Wildmatch |
| wildmatch/wildmatch/wildmatch.c:231-234 | an unterminated '[' advances the string before the normal comparison | "[" does not match "[" but matches "x[" | an unterminated '[' is the literal '[' | not executed | Wildmatch.BrokenBracketSkipsChar | Wildmatch.BrokenBracketIsLiteral, Wildmatch.Wildmatch |
| wildmatch/wildmatch/wildmatch.c:122 | a leading "**" reads the byte before the pattern | "**" against "a/b" matches if that byte is '/' and fails if it is 'x' | a whole-pattern "**" matches every string | not executed | Wildmatch.LeadingWildstarReadsBefore | Wildmatch.LeadingWildstarMatchesAll, Wildmatch.Wildmatch |
| clink/lua/src/sessionstream.cpp:170-175 | `truncate` does not write the NUL at the new size | writing "123" and truncating to 1 leaves '2' where a terminator is expected | the stream stays NUL-terminated | not executed | SessionStreams.TruncateLeavesStaleByte | SessionStreams.TruncateKeepsTerminator, SessionStreams.SessionStream.Truncate |
| clink/terminal/src/win_terminal_in.cpp:280-304 | `push(unsigned)` adds the encoded length to the count even when the bytes are not stored | a four-slot buffer holding two bytes, then U+20AC: nothing is stored and the count becomes 5. In the running program this needs the pushes of one event to fill the buffer, since select (win_terminal_in.cpp:63-67) reads the console only into an empty buffer; whether that can happen depends on the buffer size in `win_terminal_in.h`, which is not part of this model | the count equals the bytes stored | not executed | TerminalIn.WideValueOvercounts | TerminalIn.WideValueDropped, TerminalIn.InputBuffer.PushValue |
| clink/terminal/src/win_terminal_in.cpp:117-126 | the Alt-release repair of an Alt+numpad character keeps `VK_MENU`, which `process_input` discards | a key-up record with `VK_MENU` and a non-zero character pushes nothing | the character is pushed | not executed | TerminalIn.AltCodeDropped | TerminalIn.AltCodeDelivered |
| clink/lib/src/display_matches.cpp:711 | the prefix test passes the segment's length to `exact_match`, so it tests equality | "match symbol" is not taken to start with "match" | the test uses the match's length and checks for a prefix | not executed | DisplayMatches.PrefixBitAsWrittenMissesPrefix | DisplayMatches.PrefixBitIsPrefix |
| readline/readline/histsearch.c:204 | the forward limit of a pattern search uses the length of the pattern | a forward search for "a" (pattern "\*a\*") misses the line "a", which the reverse search finds | both directions try the same start positions | not executed | HistSearch.ForwardPatternMissesShortLine | HistSearch.DirectionsAgree |
| clink/lua/src/prompt.cpp:356-362 | `tagged_prompt::set` passes the count left after the tag, and `prompt::set` reads 0 as "up to the terminator" | a write of exactly "@CLINK_PROMPT" followed in memory by "xyz" becomes the prompt "xyz" | the stored prompt is empty | not executed | Prompts.TaggedSetReadsPastCount | Prompts.Prompt.TaggedSet |
| clink/lib/src/textlist_impl.cpp:423-431 | the sharing pass gives each column the remaining width divided by the pending count, but takes a full share from the width each time | two 20-cell columns sharing 10 cells get 2 and 5, while 0 is reported as left | each column gets the share of 5 | not executed | TextList.ShareAsWrittenLosesWidth | TextList.Columns.SharePass, TextList.Columns.Distribute, TextList.Columns.CalcWidths |
