# ferroni core in Dafny

A model of the core of ferroni, a Rust port of the Oniguruma regular
expression engine, with proofs about it. Each `.dfy` file holds one Dafny
module, and each module models the source file named beside it, or the part
of it listed:

- `Oniguruma` (oniguruma.rs) holds the option bits and result/error codes, the option helpers, and the match region.
- `Regint`, `MemStatus`, `Bitset` and `Bits` (regint.rs) hold the repeat/length sentinels, the opcodes, the capture-status masks and the 256-bit sets.
  - u32 words are modelled bit by bit, as `seq<bool>` of length 32.
- `Regenc`, `Encoding`, `Utf8`, `Ascii` and `Unicode` (regenc.rs, encodings/, unicode/) cover the encodings:
  - the ASCII tables and case fold;
  - character stepping and head finding;
  - the UTF-8 and ASCII codecs;
  - Unicode property-name normalisation and ctype lookup.
- `CodeRange` (regparse.rs, regexec.rs) holds the sorted code-range lists of character classes, their byte layout, and `is_in_code_range`.
- `ParseTypes` and `Parse` (regparse_types.rs, regparse.rs) hold:
  - node flag setters, string and back-reference nodes, and list chains;
  - the name table;
  - the number and interval scanners, quantifier classification and control escapes;
  - the capture counter.
- `Compile` (regcomp.rs) holds saturating length arithmetic, literal and class opcode selection, string-node compilation into runs of equal-width characters, quantifier layouts, string-list reduction (through group and anchor bodies), and the checks and tail of `onig_new`.
- `Exec` (regexec.rs) is the backtracking VM:
  - the choice-point and capture stack;
  - the instruction step of `match_at` for the modelled opcodes;
  - the fuel-bounded run loop;
  - the forward search.
- `CompiledMatch` connects the literal opcodes the compiler chooses to the instructions the VM runs.
- `RegSet` and `Scanner` (regset.rs, scanner.rs) cover multi-pattern search:
  - the anchor aggregates and the add/replace bookkeeping;
  - the position-lead and regex-lead strategies;
  - the UTF-16/UTF-8 offset tables, option mapping and per-pattern caching of the scanner.
- `RegError` and `Errors` (regerror.rs, error.rs) hold the message formats, parameter escaping, and the `RegexError` type with its code and text.
- `Api` (api.rs) holds matches, captures, the find queries, the match iterator and the builder setters.
- `RegTrav` (regtrav.rs) is the capture-history traversal.

Negative i32 codes are the error side of `Result`/`Option`-style values, as
in the source.

Calls whose behaviour lives outside the core become parameters:
- a member regex's own search, in a regex set or scanner;
- the traversal callback, modelled as a pure function of the events it has seen;
- the generated Unicode property tables;
- the search used by the API wrappers.

The VM loop and the match iterator are bounded by a `fuel` argument.
Integers are unbounded. The source's u32/i32/usize limits are written out
for its overflow checks, its saturating lengths and the usize wrap of the
matcher's subtractions; the `as i32` casts of match lengths and positions
are not modelled.

## Model

| member | source | states |
|---|---|---|
| Oniguruma.OptionOn | src/oniguruma.rs:116-119 | `onig_option_on` sets the bits of the option and leaves every other bit as it was |
| Oniguruma.OptionOff | src/oniguruma.rs:121-124 | `onig_option_off` clears the bits of the option and leaves every other bit as it was |
| Oniguruma.OptionOnOffLaws | src/oniguruma.rs:116-129 | an option turned on tests as on, one turned off tests as off, and turning on then off restores options that lacked the bits |
| Oniguruma.NewRegion | src/oniguruma.rs:367-375 | a new region is valid, has no slots, no capacity and no capture history |
| Oniguruma.InitRegion | src/oniguruma.rs:377-383 | `init` turns any region into the new, empty one |
| Oniguruma.ClearRegion | src/oniguruma.rs:385-391 | `clear` keeps the slot count and capacity, marks every used slot unmatched (REGION_NOTPOS) and drops the history |
| Oniguruma.ResizeSeq | src/oniguruma.rs:395-396 | `Vec::resize` gives exactly n entries, keeps the old ones below n and fills new ones with the fill value |
| Oniguruma.ResizeRegion | src/oniguruma.rs:393-399 | `resize` leaves a valid region of n slots and capacity n, old offsets kept, new ones unmatched, history untouched |
| Oniguruma.ResizeThenClearIsBlank | src/oniguruma.rs:385-399 | resizing and then clearing gives the same blank region whatever the region held before |
| Regint.AnchorClassification | src/regint.rs:166-196 | among the eighteen single-flag anchor types, `anchor_has_body` holds exactly for the four look-arounds and `is_word_anchor_type` exactly for the four word anchors |
| MemStatus.MemStatusClear | src/regint.rs:52-55 | a cleared mask has no bit set |
| MemStatus.MemStatusOnAll | src/regint.rs:57-60 | the all-on mask has every bit set |
| MemStatus.MemStatusReadersAsBits | src/regint.rs:62-109 | `mem_status_at` reads bit n below 32 and bit 0 from 32 up; `mem_status_at0` reads bit 0 for group 0 too; `mem_status_limit_at` is false from 32 up |
| MemStatus.MemStatusOnThenAt | src/regint.rs:85-94 | after `mem_status_on(n)` a group reads as set iff it was, or it is n with 1 <= n < 32, or n is 32 or more and the group reads bit 0; group 0 alone changes nothing |
| MemStatus.MemStatusLimitOnThenAt | src/regint.rs:103-116 | `mem_status_limit_on` marks exactly group n among the bounded readings and never touches bit 0 |
| MemStatus.MemStatusOnSimpleThenAt | src/regint.rs:96-109 | `mem_status_on_simple` marks exactly group n among the bounded readings |
| Bitset.Room | src/regint.rs:136-139 | `bs_room` names one of the eight rooms for every position below 256 |
| Bitset.SameRoomDistinctBit | src/regint.rs:136-144 | two different positions in one room get different `bs_bit` masks |
| Bitset.BitsetAtAsBit | src/regint.rs:146-149 | `bitset_at(p)` reads bit `p & 31` of room `p >> 5`, that is bit p of the 256-bit set |
| Bitset.BitsetSetBitSpec | src/regint.rs:151-154 | after `bitset_set_bit(p)` position p is a member and no other position changes |
| Bitset.BitsetClearBitSpec | src/regint.rs:156-159 | after `bitset_clear_bit(p)` position p is not a member and no other position changes |
| Bitset.BitsetInvertBitSpec | src/regint.rs:161-164 | `bitset_invert_bit(p)` flips position p and no other |
| Bitset.BitsetInvertBitInvolution | src/regint.rs:161-164 | inverting the same bit twice gives the bitset back |
| Bitset.BitsetClear | src/regint.rs:129-134 | the cleared bitset has no member |
| Bitset.BitsetInvertAt | src/regparse_types.rs:1086-1090 | a position is in the inverted set iff it was not in the set |
| Bitset.BitsetInvertInvolution | src/regparse_types.rs:1086-1090 | `bitset_invert` twice gives the set back |
| Bitset.BitsetAndAt | src/regparse_types.rs:1098-1102 | a position is in the result of `bitset_and` iff it is in both sets |
| Bitset.BitsetOrAt | src/regparse_types.rs:1104-1108 | a position is in the result of `bitset_or` iff it is in either set |
| Bitset.BitsetIsEmptyIffNoMember | src/regparse_types.rs:1114-1116 | `bitset_is_empty` (every room zero) holds iff no position is a member |
| Bitset.BitsetSetRange | src/regparse_types.rs:1080-1084 | `bitset_set_range` adds exactly the positions from..=to and keeps every other membership; nothing changes when from > to |
| Ascii.AsciiCodec | src/encodings/ascii.rs:13-43 | every byte is a one-byte character whose code is the byte; `code_to_mbclen` is 1 exactly below 256 and INVALID_CODE_POINT_VALUE otherwise; codes below 256 come back from the byte `code_to_mbc` writes |
| Ascii.AsciiIsCodeCtypeSpec | src/encodings/ascii.rs:78-89 | no class holds from code 128 on or above the standard ctypes; below that the answer is the ASCII ctype table's as written, so digit, alpha, control and ascii are the POSIX classes, while space is 0x08..0x0D and 0x20 and blank is 0x08, 0x09 and 0x20 (backspace included, see Findings) |
| Ascii.BackspaceOnlyDifference | src/regenc.rs:249-251 | the written ctype table and the corrected one give the same classes to every ASCII code but backspace, where the written one adds exactly space and blank |
| Ascii.AsciiMbcCaseFoldSpec | src/encodings/ascii.rs:45-54 | case folding consumes one byte and writes one byte that is never upper case and differs from the input exactly for A..Z |
| Ascii.AsciiFlag | src/encodings/ascii.rs:122-124 | the ASCII encoding reports itself ASCII-compatible, not Unicode, with skip offset 1 |
| Utf8.EncLen | src/encodings/utf8.rs:19-31 | every entry of ENC_LEN_UTF8 is a length from 1 to 4 |
| Utf8.MbcEncLen | src/encodings/utf8.rs:40-42 | `mbc_enc_len` announces a length from 1 to 4 |
| Utf8.DecodeLen | src/encodings/utf8.rs:60-77 | `mbc_to_code` reads the announced length cut down to the bytes available, never past the slice |
| Utf8.DecodeTailLocal | src/encodings/utf8.rs:60-77 | decoding depends on no byte beyond the cut-down length |
| Utf8.MbcToCodeReadsOneChar | src/encodings/utf8.rs:60-77 | two inputs that agree on their first DecodeLen bytes decode to the same code |
| Utf8.CodeToMbclen | src/encodings/utf8.rs:79-91 | `code_to_mbclen` is a length from 1 to 4 below 0x200000 and INVALID_CODE_POINT_VALUE exactly from 0x200000 on |
| Utf8.CodeToMbc | src/encodings/utf8.rs:93-121 | `code_to_mbc` fails with TOO_BIG_WIDE_CHAR_VALUE exactly from 0x200000 on; otherwise it writes `code_to_mbclen` bytes, every one after the lead of the form 10xxxxxx |
| Utf8.CodeToMbcRoundTrip | src/encodings/utf8.rs:40-121 | for every code point up to 0x10FFFF, the lead byte written announces `code_to_mbclen(code)` and `mbc_to_code` of the bytes gives the code back |
| Utf8.CodeToMbcBeyondDecodableRange | src/encodings/utf8.rs:19-121 | for every code from 0x140000 up to 0x1FFFFF the encoder still writes four bytes, but their lead byte (0xF5..0xF7) announces a one-byte character, so decoding gives the lead byte back and never the code |
| Utf8.IsValidMbcString | src/encodings/utf8.rs:192-213 | the validator's loop answers true exactly when the bytes split into characters with a valid lead and the announced number of continuation bytes |
| Utf8.ValidUtf8Concat | src/encodings/utf8.rs:192-213 | two valid strings concatenate to a valid string |
| Utf8.CodeToMbcIsValid | src/encodings/utf8.rs:93-121 | what `code_to_mbc` writes for a code point up to 0x10FFFF passes the validator |
| Utf8.ValidUtf8Rejects | src/encodings/utf8.rs:195-209 | a lead above 0xF4 or in 0x80..0xC1, a character cut short and a non-continuation tail byte are each rejected |
| Utf8.WalkToLead | src/encodings/utf8.rs:181-185 | the backward walk stops at a lead byte or at `start`, never below `start` nor above where it began |
| Utf8.LeftAdjustCharHead | src/encodings/utf8.rs:177-186 | `left_adjust_char_head` returns s itself at or before start, and otherwise a position between start and s |
| Utf8.LeftAdjustCharHeadIsNearestLead | src/encodings/utf8.rs:177-186 | a lead byte is its own head, and otherwise the head found is the last lead byte at or before s, if one lies after start |
| Utf8.MbcCaseFold | src/encodings/utf8.rs:123-140 | an ASCII byte is lowered and one byte consumed; any other character is copied whole and its length consumed |
| Utf8.Utf8Flag | src/encodings/utf8.rs:215-217 | UTF-8 reports itself ASCII-compatible and Unicode, with skip offset 1-or-0 |
| Regenc.SkipOffset | src/regenc.rs:134-137 | `enc_get_skip_offset` is the three-bit field of the flag, below 8 |
| Regenc.AsciiToLower | src/regenc.rs:228-247 | the lower-case table never yields an upper-case letter and changes a byte exactly when it is A..Z |
| Regenc.AsciiToLowerLaws | src/regenc.rs:228-247 | lowering is idempotent, sends A..Z to a..z, and two bytes lower to the same byte only when equal or the two cases of one letter |
| Regenc.AsciiCtypeEntryAsWritten | src/regenc.rs:249-270 | ONIG_ENC_ASCII_CTYPE_TABLE as written: codes 128..255 carry no type |
| Regenc.AsciiCtypeAsWrittenBackspaceIsSpace | src/regenc.rs:249-251 | with the table as written, backspace (0x08) tests as a space and as a blank |
| Regenc.AsciiCtypeEntry | src/regenc.rs:249-270 | the corrected table differs from the written one only at entry 8 |
| Regenc.AsciiCtypeLetterClasses | src/regenc.rs:249-270 | with the corrected table, digit, upper, lower, alpha, alnum, word and xdigit are exactly their POSIX sets on ASCII |
| Regenc.AsciiCtypeOtherClasses | src/regenc.rs:249-270 | with the corrected table, space, blank, newline, cntrl, print, graph and punct are exactly their POSIX sets, and every ASCII code has the ascii type |
| Regenc.AsciiCtypeHighCodes | src/regenc.rs:386-393 | no code of 128 or more has any type, in either table |
| Regenc.CaseAmbigIsLetter | src/regenc.rs:401-409 | `onigenc_is_ascii_code_case_ambig` holds exactly for the ASCII letters |
| Regenc.AsciiMbcCaseFold | src/regenc.rs:469-481 | ASCII case folding consumes one byte and writes one non-upper-case byte with the same lower-case form |
| Regenc.AsciiFoldCalls | src/regenc.rs:483-501 | the fold run makes 52 calls, the 26 table pairs in both directions |
| Regenc.RunFoldCallsPrefix | src/regenc.rs:483-501 | the calls a run makes are a prefix of the list and every call but the last returned 0 |
| Regenc.RunFoldCallsResult | src/regenc.rs:483-501 | a run returns 0 exactly when it made every call and all returned 0, and otherwise the first non-zero result |
| Regenc.AsciiApplyAllCaseFoldSpec | src/regenc.rs:483-501 | `onigenc_ascii_apply_all_case_fold` makes the 52 calls in order up to the first non-zero result and returns it, or 0 after all 52 |
| Regenc.AsciiGetCaseFoldCodesByStr | src/regenc.rs:505-527 | one item (byte length 1, code length 1) holding the other-case letter for A..Z and a..z, no item for any other byte |
| Regenc.SingleByteMbcToCode | src/regenc.rs:417-421 | the code of a single byte is below 256 |
| Regenc.SingleByteCodeToMbclen | src/regenc.rs:423-431 | the single-byte length is 1 or INVALID_CODE_POINT_VALUE |
| Regenc.SingleByteCodeToMbc | src/regenc.rs:433-438 | the single-byte encoder writes one byte |
| Regenc.SingleByteRoundTrip | src/regenc.rs:417-438 | the length is 1 exactly below 256, codes below 256 come back from their byte, and every byte re-encodes to itself |
| Encoding.EncLenAt | src/regenc.rs:566-582 | the encoding's length of the character at a position is 1 to 4 bytes |
| Encoding.LeftAdjust | src/regenc.rs:641-650 | the adjusted head is at or before s, and not before start when s is after start |
| Encoding.PrevCharHead | src/regenc.rs:596-609 | `onigenc_get_prev_char_head` is None exactly when s <= start, and otherwise a head in [start, s) |
| Encoding.StepBack | src/regenc.rs:547-562 | `onigenc_step_back` returns s for n = 0, fails when steps remain at or before start, and otherwise lands in [start, s) |
| Encoding.StepBackThenPrev | src/regenc.rs:547-562 | stepping back n + 1 characters is stepping back n and then taking the previous head |
| Encoding.AsciiStepBackIsByteStep | src/regenc.rs:547-562 | in ASCII, stepping back n characters reaches s - n and fails exactly when that passes start |
| Encoding.StepPosBounds | src/regenc.rs:566-582 | n forward steps cover between n and 4n bytes, exactly n in ASCII |
| Encoding.StepPosAdd | src/regenc.rs:566-582 | n + m steps are n steps followed by m steps |
| Encoding.StepSpec | src/regenc.rs:566-582 | `onigenc_step` is None exactly when the n characters end past `end`, and otherwise lands between p + n and end |
| Encoding.CanStepOneMore | src/regenc.rs:566-582 | from below `end` one more step is possible and moves by the character's length |
| Encoding.StepPosAddBack | src/regenc.rs:566-582 | n steps that can be followed by m steps are n + m steps |
| Encoding.Strlen | src/regenc.rs:585-593 | `onigenc_strlen` is 0 when p >= end and otherwise the least n whose n steps from p reach or pass end |
| Encoding.RightAdjustCharHead | src/regenc.rs:611-626 | `onigenc_get_right_adjust_char_head` returns s when s is a character head |
| Encoding.RightAdjustAtHead | src/regenc.rs:611-626 | in ASCII every byte is a head and in UTF-8 a lead byte is, so adjustment returns s there |
| Encoding.RightAdjustInsideChar | src/regenc.rs:611-626 | inside a UTF-8 character right adjustment returns the byte after that character |
| Unicode.NormalizedName | src/unicode/mod.rs:106-120 | the normal form of a property name is never longer than the name |
| Unicode.NormalizePropertyName | src/unicode/mod.rs:106-120 | the normalising loop fails with INVALID_CHAR_PROPERTY_NAME exactly when a kept byte is non-ASCII or more than 128 bytes are kept, and otherwise yields the normal form (spaces, hyphens and underscores dropped, ASCII lowered) |
| Unicode.NormalizedNamePrefixGrows | src/unicode/mod.rs:106-120 | normalising a prefix never gives a longer name than normalising the whole |
| Unicode.NormalizedNameAppend | src/unicode/mod.rs:106-120 | normalisation works byte by byte: the normal form of a concatenation is the concatenation of the normal forms |
| Unicode.NormalizedNameInsensitive | src/unicode/mod.rs:106-120 | inserting a space, hyphen or underscore, or changing the case of an ASCII letter, leaves the normal form unchanged |
| Unicode.LookupPropertyName | src/unicode/mod.rs:122-126 | over a strictly sorted name table the binary search returns the ctype listed under exactly the key, and INVALID_CHAR_PROPERTY_NAME when no entry has that name |
| Unicode.PropertyNameToCtype | src/unicode/mod.rs:104-127 | `onigenc_unicode_property_name_to_ctype` fails for a non-ASCII or over-long name and otherwise returns the ctype listed for the normal form, or INVALID_CHAR_PROPERTY_NAME |
| Unicode.SearchRanges | src/unicode/mod.rs:140-154 | over sorted disjoint pairs the binary search answers true exactly when some pair has from <= code <= to |
| Unicode.UnicodeIsCodeCtype | src/unicode/mod.rs:131-155 | the ISO-8859-1 table decides a standard ctype below 256; otherwise an unknown ctype is false and a known one is range membership |
| Unicode.UnicodeCtypeCodeRange | src/unicode/mod.rs:160-168 | `onigenc_unicode_ctype_code_range` is None exactly for ctypes past the tables, and otherwise that ctype's range list |
| Unicode.UnicodeMbcCaseFold | src/unicode/mod.rs:55-71 | the Unicode fold copies the character's bytes unchanged and moves past them |
| Unicode.UnicodeApplyAllCaseFold | src/unicode/mod.rs:75-81 | the Unicode fold run makes no call and returns 0 |
| Unicode.UnicodeGetCaseFoldCodesByStr | src/unicode/mod.rs:85-98 | an ASCII lead byte gets the ASCII alternatives and any other lead byte none |
| CodeRange.SearchLow | src/regparse.rs:550-559 | the first binary search stops at the first range whose upper end reaches `from` |
| CodeRange.SearchHigh | src/regparse.rs:561-570 | the second binary search stops at the first range from `low` on that starts after to + 1, or at the end when `to` is the largest u32 |
| CodeRange.SearchSpanTouches | src/regparse.rs:550-572 | the two searches leave a non-empty span exactly when some range overlaps or touches [from, to] |
| CodeRange.MergeSpec | src/regparse.rs:572-609 | replacing the span by the merged range keeps the list sorted and disjoint and adds exactly [from, to] to the covered code points |
| CodeRange.AddCodeRangeToBuf | src/regparse.rs:526-609 | `add_code_range_to_buf` orders from/to; on a valid list it fails with TOO_MANY_MULTI_BYTE_RANGES exactly when the list is full and the new range touches none, and otherwise yields a sorted disjoint list covering the old set plus [from, to], never above the limit |
| CodeRange.AddCodeRange | src/regparse.rs:611-625 | a reversed range changes nothing and returns 0 when the syntax allows empty class ranges, EMPTY_RANGE_IN_CHAR_CLASS otherwise; a proper range is added as above |
| CodeRange.SerializeReadBack | src/regparse.rs:526-609 | the buffer layout (a u32 count followed by from/to pairs of u32) reads back as the count and the ranges written |
| CodeRange.FirstReachingRange | src/regexec.rs:578-597 | in a sorted disjoint list only the first range whose upper end reaches the code can hold it |
| CodeRange.SearchTable | src/regexec.rs:578-589 | the binary search of `is_in_code_range` stops at the first range whose upper end reaches the code, or at n |
| CodeRange.IsInCodeRange | src/regexec.rs:569-598 | `is_in_code_range` is false for a buffer shorter than 4 bytes or than its declared 4 + 8n bytes, and over sorted disjoint pairs true exactly when some from <= code <= to |
| ParseTypes.FlagOpsOwnBitOnly | src/regparse_types.rs:217-227 | setting a flag bit makes it read as set and clearing makes it read as clear, and neither changes any other flag |
| ParseTypes.StatusAdd | src/regparse_types.rs:217-219 | `status_add` leaves the node's contents untouched |
| ParseTypes.StatusRemove | src/regparse_types.rs:221-223 | `status_remove` leaves the node's contents untouched |
| ParseTypes.StatusSettersSpec | src/regparse_types.rs:217-227 | adding or removing one status flag changes that flag only |
| ParseTypes.NodeNew | src/regparse_types.rs:782-788 | a new node has no status flag set |
| ParseTypes.CrudeSettersSpec | src/regparse_types.rs:432-446 | `set_crude` and `clear_crude` change the crude bit and nothing else |
| ParseTypes.NotSettersSpec | src/regparse_types.rs:456-466 | `set_not` and `clear_not` change the NOT bit and leave the other class flags alone |
| ParseTypes.NodeStrCat | src/regparse_types.rs:1121-1128 | `node_str_cat` appends the bytes to a string node and returns NORMAL; on any other node it returns TYPE_BUG and changes nothing |
| ParseTypes.NodeStrCatTwice | src/regparse_types.rs:1121-1128 | two appends equal one append of the joined bytes |
| ParseTypes.NodeNewBackref | src/regparse_types.rs:831-860 | `node_new_backref` stores up to six group numbers inline and more on the heap, and records BY_NAME and NEST_LEVEL from its arguments |
| ParseTypes.NodeNewBackrefSpec | src/regparse_types.rs:831-860 | built with a count equal to the list length, `back_refs()` gives back exactly the group numbers; BY_NAME is set iff by_name and NEST_LEVEL iff the level is non-zero |
| ParseTypes.MakeChainN | src/regparse_types.rs:1052-1069 | the chain built from a non-empty vector is right-linked, its cars are the vector in order and its last cdr is None |
| ParseTypes.MakeListN | src/regparse_types.rs:1052-1060 | `make_list_n` gives a list chain whose cars are the input in order |
| ParseTypes.MakeAltN | src/regparse_types.rs:1062-1069 | `make_alt_n` gives an alternation chain whose cars are the input in order |
| ParseTypes.MakePair | src/regparse_types.rs:1040-1050 | `make_list` and `make_alt` give a two-element chain of their arguments |
| ParseTypes.NameAdd | src/regparse_types.rs:1189-1217 | `NameTable::add` fails only with EMPTY_GROUP_NAME or MULTIPLEX_DEFINED_NAME; on success the table gains the name and every other name keeps its numbers |
| ParseTypes.NameToGroupNumbers | src/regparse_types.rs:1227-1229 | `name_to_group_numbers` is None for an unknown name and the name's numbers otherwise |
| ParseTypes.NameAddSpec | src/regparse_types.rs:1189-1229 | an add keeps back_num equal to the number of back references, appends the group to the name's numbers on success, and fails exactly for an empty name or a second group without multiplex permission |
| ParseTypes.NameAddAllInOrder | src/regparse_types.rs:1189-1229 | with multiplex permission, a name given several groups in turn maps to its earlier groups followed by exactly those groups, in definition order |
| Parse.DigitVal | src/regparse.rs:247-266 | `digitval`, `xdigitval` and `odigitval` give a digit value below the radix |
| Parse.OverflowTest | src/regparse.rs:419-420 | the scanners' overflow test `(limit - v) / radix < acc` holds exactly when `acc * radix + v` exceeds the limit, so the test never itself overflows |
| Parse.ScanNumber | src/regparse.rs:408-430 | `scan_number` returns 0 without moving when no digit is there, and otherwise stops inside the input |
| Parse.ScanNumberSpec | src/regparse.rs:408-430 | `scan_number` reads the maximal run of decimal digits and returns its value, or -1 (stopping inside the run) when the value exceeds i32::MAX; with no digit it returns 0 and does not move |
| Parse.ScanCode | src/regparse.rs:432-496 | the code scanners read at most `maxlen` digits and fail with TOO_BIG_NUMBER when the value exceeds u32::MAX, else with INVALID_CODE_POINT_VALUE when fewer than `minlen` digits were read; only success delivers the code |
| Parse.ScanHexadecimalNumber | src/regparse.rs:432-463 | `scan_hexadecimal_number` delivers a code only after reading between `minlen` and `maxlen` hexadecimal digits, and otherwise fails with one of the two errors |
| Parse.ScanOctalNumber | src/regparse.rs:465-496 | `scan_octal_number` delivers a code only after reading between `minlen` and `maxlen` octal digits, and otherwise fails with one of the two errors |
| Parse.ScanNumberRoundTrip | src/regparse.rs:408-430 | writing any number up to i32::MAX in decimal and scanning it back gives the number and the position right after its digits |
| Parse.ScanHexadecimalRoundTrip | src/regparse.rs:432-463 | writing a code in hexadecimal and scanning it with a large enough `maxlen` gives the code back |
| Parse.ConvBackslashValueSpec | src/regparse.rs:745-765 | `conv_backslash_value` changes a code exactly when it is n, t, r, f, a, b or e with ESC_CONTROL_CHARS on, or v with ESC_V_VTAB on as well, and then yields the control code that maps back to that letter |
| Parse.EscapeLetterRoundTrip | src/regparse.rs:745-765 | every control code of the table comes from its letter once both escape switches are on |
| Parse.QuantifierTypeNum | src/regparse.rs:914-937 | `quantifier_type_num` returns a value from -1 to 5 |
| Parse.QuantifierTypeNumInverse | src/regparse.rs:914-937 | the result is t >= 0 exactly for the quantifier t stands for: greedy `?`, `*`, `+` as 0, 1, 2 and their lazy forms as 3, 4, 5 |
| Parse.QuantifierTypeNumOther | src/regparse.rs:914-937 | the result is -1 exactly for bounds other than {0,1}, {0,inf} and {1,inf} |
| Parse.AddMemEntriesSpec | src/regparse.rs:334-364 | k registrations from `num_mem` all succeed iff the capture limit is 0 or leaves room, number the groups up to num_mem + k, and otherwise fail with TOO_MANY_CAPTURES |
| Parse.InvalidInterval | src/regparse.rs:968-1051 | a malformed interval is a literal when the syntax allows invalid intervals and INVALID_REPEAT_RANGE_PATTERN otherwise |
| Parse.CloseInterval | src/regparse.rs:1015-1051 | after the bounds a closing brace is required, and an upper bound below the lower one is UPPER_SMALLER_THAN_LOWER_IN_REPEAT_RANGE |
| Parse.FetchInterval | src/regparse.rs:943-1051 | `fetch_interval` fails only with its four error codes; a literal outcome needs the syntax's permission; an interval has lower <= MAX_REPEAT_NUM, upper INFINITE or between lower and MAX_REPEAT_NUM, `fixed` iff lower == upper, and ends after a closing brace |
| Parse.FetchUpper | src/regparse.rs:990-1051 | the part after the lower bound keeps the same guarantees |
| Parse.FetchIntervalRoundTrip | src/regparse.rs:943-1051 | writing `{n}`, `{n,m}`, `{n,}` or `{,m}` with bounds up to MAX_REPEAT_NUM and reading it back gives the bounds (INFINITE_REPEAT for `{n,}`), `fixed` exactly when they are equal, and the position after the brace |
| Parse.FetchIntervalRejectsBigLower | src/regparse.rs:968-975 | a lower bound above MAX_REPEAT_NUM (up to i32::MAX) is TOO_BIG_NUMBER_FOR_REPEAT_RANGE |
| Compile.AsU32 | src/regcomp.rs:82-90 | `b as u32` lies within u32 and agrees with `b` modulo 2^32 |
| Compile.LenMultiplyCmp | src/regcomp.rs:82-90 | `len_multiply_cmp` holds exactly when neither factor is 0 and the product of `a` and `b as u32` exceeds the limit; the division first keeps it from wrapping |
| Compile.DistanceAdd | src/regcomp.rs:93-101 | `distance_add` is the true sum when that stays at or below INFINITE_LEN and INFINITE_LEN otherwise, so it never wraps |
| Compile.DistanceMultiply | src/regcomp.rs:104-112 | `distance_multiply` is 0 for a zero factor, the exact product when one more multiple still fits below INFINITE_LEN, INFINITE_LEN otherwise, and an infinite length stays infinite |
| Compile.SelectStrOpcodeInverse | src/regcomp.rs:137-160 | the chosen string opcode gives back the character width for widths 1 to 3, and the run length for one-byte runs of 1 to 5 and two-byte runs of 1 to 3; all other runs get a counted form |
| Compile.ExactBuffer | src/regcomp.rs:167-197 | the 16-byte inline buffer starts with the literal's bytes and is zero after them |
| Compile.StringOpAsWritten | src/regcomp.rs:167-197 | as written, the opcode is the one `select_str_opcode` picks and the width is the run's; the instruction has no readable literal exactly for a one-byte run of 6 to 16 characters (the inline `Exact` payload under StrN, see Findings), and is otherwise the agreeing instruction |
| Compile.StringOpAsWrittenAgainst | src/regcomp.rs:167-197 | the as-written and agreeing instructions for a run share their opcode, are equal whenever the as-written one is readable, and differ exactly for a StrN run of at most 16 bytes |
| Compile.StringOp | src/regcomp.rs:167-197 | the corrected `add_compile_string`: the payload agrees with the opcode, `Exact` for Str1 to Str5, `ExactN` for StrN, `ExactLenN` for the wider forms, and it carries the run's bytes |
| Compile.StringOpReadsBack | src/regcomp.rs:167-197 | the agreeing instruction for a run of `strLen` characters of `mbLen` bytes compares exactly the run's `mbLen * strLen` bytes, for characters of width `mbLen` |
| Compile.CrudeStringOpAsWritten | src/regcomp.rs:285-310 | as written, a non-empty crude string compiles to the instruction `add_compile_string` builds for one single-byte run: no readable literal exactly for 6 to 16 bytes (see Findings), and otherwise a literal comparing the whole string |
| Compile.CompileStringCrudeNode | src/regcomp.rs:285-310 | the corrected `compile_string_crude_node` emits nothing for an empty string and otherwise one single-byte literal whose payload holds all the bytes and agrees with its opcode |
| Compile.RunFrom | src/regcomp.rs:262-271 | the inner loop of `compile_string_node` advances by whole characters of width `w`, every one of them of that width, and stops at the end or at the first character of another width |
| Compile.RunFromWhole | src/regcomp.rs:247-283 | a run of whole characters ends on a character boundary within the string |
| Compile.FirstRun | src/regcomp.rs:258-271 | the run measured from a character boundary has at least one character, all of the first character's width, and stops on a boundary before a character of another width or at the end |
| Compile.StringOpsFrom | src/regcomp.rs:247-282 | with agreeing payloads, the instructions emitted from a position spell the rest of the string: each compares the bytes of one maximal run of characters of one width, in order |
| Compile.StringOpsFromUnfold | src/regcomp.rs:258-281 | the first run's instruction comes first, then those for the rest of the string |
| Compile.StringOpsFromAsWritten | src/regcomp.rs:247-282 | as written, the same number of instructions with the same opcodes as with agreeing payloads, equal wherever readable, and unreadable exactly for the StrN runs of at most 16 bytes |
| Compile.StringOpsFromAsWrittenUnfold | src/regcomp.rs:258-281 | as written, the first run's instruction comes first, then those for the rest |
| Compile.AsWrittenStep | src/regcomp.rs:258-281 | the as-written relation to the agreeing instructions extends by the first run |
| Compile.AsWrittenOfCons | src/regcomp.rs:258-281 | the as-written relation is kept when one instruction pair is put in front |
| Compile.SingleAsWrittenOf | src/regcomp.rs:167-197 | one as-written instruction stands in the as-written relation to its agreeing instruction |
| Compile.RunsCoverCons | src/regcomp.rs:258-281 | one more maximal run in front of instructions covering the rest covers the whole |
| Compile.CompileStringNode | src/regcomp.rs:247-282 | with agreeing payloads, `compile_string_node` emits nothing for an empty string and otherwise literal instructions spelling the whole string, one per maximal run of characters of one width |
| Compile.CompileStringNodeAsWritten | src/regcomp.rs:247-282 | `compile_string_node` as written emits the agreeing instructions except that each single-byte run of 6 to 16 characters gets an instruction with no readable literal (see Findings) |
| Compile.CompileCClassReadBack | src/regcomp.rs:317-355 | the class operation keeps everything the class states: the negation in the opcode, the bitset in the payload (unless the bitset is empty and ranges exist), and the ranges in the serialized buffer |
| Compile.AddOp | src/regcomp.rs:66-71 | `add_op` appends exactly the given instruction and changes neither the earlier instructions nor the repeat and empty-check tables |
| Compile.EntryRepeatRangeSpec | src/regcomp.rs:362-382 | `entry_repeat_range` hands out the previous repeat count as the new id, keeps one table entry per id, and records the new bounds under that id |
| Compile.CompileQuantBodyIsLoopBody | src/regcomp.rs:384-416 | the quantifier body is wrapped in an empty check with the next empty-check id, which is allocated exactly when the body may match empty |
| Compile.Repeated | src/regcomp.rs:418-432 | `compile_tree_n_times` emits n times the body's length |
| Compile.CompileQuantifier | src/regcomp.rs:500-645 | `compile_quantifier_node` only appends instructions and keeps the repeat table consistent with the repeat count |
| Compile.GreedyLoopLayout | src/regcomp.rs:500-645 | a greedy unbounded loop is the lower-bound copies, then a PUSH whose alternative is the first instruction after the loop, the loop body, and a JUMP back to the PUSH |
| Compile.LazyLoopLayout | src/regcomp.rs:500-645 | a lazy unbounded loop is a JUMP to the closing PUSH, the loop body, and that PUSH, whose alternative re-enters the body, so leaving the loop is tried first |
| Compile.RepeatLoopLayout | src/regcomp.rs:500-645 | a counted loop is REPEAT with a fresh repeat id whose exit target is just past the loop, the body, and REPEAT_INC of the same id; the id's range holds the loop's bounds |
| Compile.QuantifierTrivialCases | src/regcomp.rs:500-520 | `{0}` emits nothing, `{1}` emits the body alone, and an error in the body's length or code is passed up unchanged |
| Compile.FlattenChainIsCars | src/regcomp.rs:1379-1399 | `flatten_list` on a well-formed chain collects exactly the cars, in order |
| Compile.ChainOf | src/regcomp.rs:1401-1425 | `rebuild_list` gives a chain whose flattening is the items it was built from |
| Compile.MergeStringsUnits | src/regcomp.rs:1427-1486 | merging adjacent strings keeps the sequence of bytes, flags, status and other nodes, in order |
| Compile.MergeStringsSeparates | src/regcomp.rs:1427-1486 | after merging, no two neighbours are strings that could still be joined |
| Compile.MergeStringsKeepsSeparated | src/regcomp.rs:1427-1486 | a list with no joinable neighbours comes through the merge unchanged |
| Compile.MergeUniformStrings | src/regcomp.rs:1427-1486 | strings that share flags and status merge into one node carrying all their bytes |
| Compile.ReduceEach | src/regcomp.rs:1427-1486 | the per-item loop leaves strings unchanged and reduces every other item |
| Compile.ReduceOpt | src/regcomp.rs:1570-1599 | an optional child is reduced when present and stays absent otherwise |
| Compile.ReduceDescends | src/regcomp.rs:1570-1601 | reduction goes inside quantifier, anchor and group bodies and the then/else parts of a conditional, keeping the node's kind, status, anchor type and group kind; strings, classes, back references and the other kinds come back unchanged |
| Compile.ReduceGroupOfUniformList | src/regcomp.rs:1586-1599 | a group around a list of uniform strings (the parse of "(abc)") keeps its kind and status and ends up around one string node with all the bytes |
| Compile.ReduceMergesUniformList | src/regcomp.rs:1427-1486 | a list of strings sharing flags and status (the parse of "abc") becomes one string node with all the bytes |
| Compile.ReduceKeepsSeparatedList | src/regcomp.rs:1427-1486 | a list of strings and leaves with no joinable neighbours (the parse of "a.b") stays a list of the same items with the same status |
| Compile.ReduceFlatList | src/regcomp.rs:1427-1486 | a list of strings and leaves reduces to items with the same units in the same order and no joinable neighbours; a surviving list keeps the original status |
| Compile.PushMemEnd | src/regcomp.rs:1686-1691 | the groups whose end is pushed are the back-referenced or history groups, limited to those whose start is pushed unless every start is |
| Compile.FinishCompile | src/regcomp.rs:1681-1716 | the end of `onig_compile` passes on a compile error unchanged, and otherwise records the capture bookkeeping and appends `End` |
| Compile.FinishCompilePopLevel | src/regcomp.rs:1702-1713 | the Free pop level means no capture pushes, repeats, empty checks or calls; MemStart means no group ends are pushed; the program ends in `End` |
| Compile.PushMemEndCoversBackrefs | src/regcomp.rs:1686-1691 | a group whose start is pushed and that is referred back to also has its end pushed |
| Compile.NewRegexConfig | src/regcomp.rs:1720-1750 | `onig_new` refuses DONT_CAPTURE_GROUP together with CAPTURE_GROUP and accepts every other option set |
| Compile.NewRegexConfigSpec | src/regcomp.rs:1720-1750 | each option bit other than SINGLELINE is the caller's or the syntax's; SINGLELINE survives only without NEGATE_SINGLELINE; case folding is ASCII-only exactly under IGNORECASE_IS_ASCII |
| CompiledMatch.LiteralAsWrittenNeverMatches | src/regexec.rs:973-987 | as written, the instruction compiled for a one-byte literal of 6 to 16 bytes fails at every position, whatever the subject holds (see Findings) |
| CompiledMatch.CrudeLiteralAsWrittenNeverMatches | src/regexec.rs:973-987 | as written, the crude literal of 6 to 16 bytes fails the same way (see Findings) |
| CompiledMatch.AbcdefAsWrittenMismatches | src/regcomp.rs:167-197 | the pattern "abcdef" compiled as written finds no match at 0 in "abcdef", although the subject holds the literal there |
| CompiledMatch.AbcdefMatches | src/regcomp.rs:167-197 | compiled with the payload agreeing with the opcode, "abcdef" matches all six bytes of "abcdef" |
| CompiledMatch.LiteralMatches | src/regexec.rs:886-1008 | with the corrected compilation, a literal instruction of any width and length moves past the literal exactly when the subject holds it at the position, and fails otherwise |
| CompiledMatch.LiteralTextIsWhatMatches | src/regexec.rs:886-1008 | every literal instruction, whatever its payload, moves past exactly when its payload is one its opcode reads and the subject holds the bytes it spells at the position; an instruction with no readable literal never moves past |
| CompiledMatch.AbcdefWidths | src/encodings/utf8.rs:19-40 | every byte of "abcdef" announces a one-byte character |
| CompiledMatch.OneByteRun | src/regcomp.rs:262-271 | a text of one-byte characters is whole characters and one run of width 1 to its end |
| CompiledMatch.OneByteNode | src/regcomp.rs:247-282 | a non-empty string of one-byte characters compiles to a single literal of all its bytes, as written and with agreeing payloads |
| CompiledMatch.AbcdefNode | src/regcomp.rs:247-282 | the string node "abcdef" compiles, as written, to the single unreadable instruction AbcdefAsWrittenMismatches runs, and with agreeing payloads to the one AbcdefMatches runs |
| Exec.Restore | src/regexec.rs:158-216 | popping one frame keeps the number of capture records; a start or end frame that restores at the level puts back the records it saved |
| Exec.StackPop | src/regexec.rs:158-216 | `stack_pop` finds no alternative exactly when the stack holds no choice point, and then empties it; otherwise it removes everything above and including the topmost choice point and returns that point's target |
| Exec.LowestRestorer | src/regexec.rs:158-216 | the deepest frame from `lo` up that restores group `g` at the level, or none exactly when no such frame exists |
| Exec.StackPopRestores | src/regexec.rs:158-216 | after `stack_pop` group `g` holds the records saved by the deepest popped frame that restores it, or its current records when no popped frame does |
| Exec.StackPopFreeKeepsMem | src/regexec.rs:158-216 | at the Free pop level backtracking never changes the capture records |
| Exec.StackPopToMark | src/regexec.rs:221-260 | `stack_pop_to_mark` removes the entries from the top down to and including the topmost mark with the id and returns its saved position; with no such mark it empties the stack |
| Exec.VoidDown | src/regexec.rs:262-291 | the void loop keeps the stack's length and the entries above its start, voids the topmost mark with the id and returns its saved position |
| Exec.StackVoidToMark | src/regexec.rs:262-291 | `stack_void_to_mark` keeps the stack's length, voids the topmost mark with the id and every void target above it, returns the mark's saved position, and leaves every other entry alone |
| Exec.GetRepeatCountSpec | src/regexec.rs:295-309 | `stack_get_repeat_count` is the count of the topmost counter of the repeat, or 0 when there is none |
| Exec.EmptyCheckSpec | src/regexec.rs:313-322 | `stack_empty_check` holds exactly when the topmost empty-check start of the id recorded the current position; it is false when there is none |
| Exec.Usize | src/regexec.rs:1712-1741 | a signed offset cast to `usize` keeps non-negative values and wraps negative ones by 2^64 |
| Exec.Remaining | src/regexec.rs:886-1008 | `right_range.saturating_sub(s)` is the bytes left before the right range, or 0 past it |
| Exec.EncLen | src/regexec.rs:602-611 | `enclen` is between 1 and 4 |
| Exec.StepStr | src/regexec.rs:886-970 | STR_1 to STR_5 succeed exactly when the payload is the inline buffer and the subject holds its first k bytes at the position, which then moves by k; a failure leaves the machine as it was |
| Exec.StepLiteral | src/regexec.rs:886-1008 | a literal instruction either moves one instruction on and leaves everything but the position alone, or fails with the machine unchanged, or traps |
| Exec.StepStrLen | src/regexec.rs:973-1008 | STR_N and the multi-byte literals succeed exactly when the count fits the payload and the subject holds that many payload bytes at the position; they trap exactly on an out-of-range slice |
| Exec.StepCClass | src/regexec.rs:1013-1043 | CCLASS and CCLASS_NOT succeed exactly when a byte remains and its bitset membership agrees with the negation; the position moves by a whole character |
| Exec.StepBackRef | src/regexec.rs:1407-1452 | BACKREF1 and BACKREF2 fail for a group beyond the pattern's groups or one without both records, and on success move forward without touching the stack or records |
| Exec.StepMem | src/regexec.rs:1609-1668 | the capture instructions keep the machine well-formed, leave the position alone and move to the next instruction |
| Exec.PopToMarkPlain | src/regexec.rs:1750-1774 | POP_TO_MARK removes the entries down to and including the topmost mark with the id, or all of them without one |
| Exec.StepBranch | src/regexec.rs:1705-1774 | JUMP, PUSH, PUSH_SUPER, POP and POP_TO_MARK fail exactly on a payload of another kind; JUMP moves to the instruction plus the offset, PUSH pushes an alternative to that target; none changes position or records |
| Exec.StepRepeat | src/regexec.rs:1819-1856 | REPEAT and REPEAT_NG fail exactly on a foreign payload and trap exactly on an unknown repeat id; otherwise they push a zero counter for the id, keeping position and records |
| Exec.StepRepeatInc | src/regexec.rs:1857-1909 | REPEAT_INC fails exactly on a foreign payload and traps exactly on an unknown id; otherwise it keeps the position and the records |
| Exec.StepCheck | src/regexec.rs:1910-1938 | the empty-check and mark instructions fail exactly on a foreign payload and never change the records; EMPTY_CHECK_END skips the loop jump exactly when the body matched empty |
| Exec.StepCutToMark | src/regexec.rs:2055-2072 | CUT_TO_MARK always goes on, voids down to the mark as `stack_void_to_mark` does, and goes back to the mark's position only when asked and a mark was found |
| Exec.CaptureSlots | src/regexec.rs:833-870 | the slots of groups 1 to k are absent exactly when some group's record points past the top of the stack; otherwise slot i is group i's start and end, REGION_NOTPOS where a record is unset |
| Exec.FillRegion | src/regexec.rs:833-870 | the region written at END has one slot per group plus the whole match, which spans from `keep` to the position |
| Exec.StepEnd | src/regexec.rs:833-870 | END accepts a match longer than the best so far that is non-empty when required and reaches the end when required; it returns it, or records it and backtracks when the longest match is sought |
| Exec.Backtrack | src/regexec.rs:2192-2215 | the failure path resumes at the latest alternative, or stops with the best length so far at the bottom or on an empty stack |
| Exec.Step | src/regexec.rs:833-2190 | one instruction keeps the machine well-formed and keeps the best result and the presence of a region, except that END may record a new best |
| Exec.Advance | src/regexec.rs:814-2215 | one turn of the dispatch loop never ends in a failure, since a failing instruction is followed by backtracking; when it stops it returns the best length; and a recorded best that is a valid match stays one |
| Exec.Run | src/regexec.rs:814-2218 | the dispatch loop, when it finishes, returns the best length recorded in a well-formed machine, with a region exactly when it started with one; started from a state where nothing or a valid match was recorded, every length it reports is MISMATCH or a match from the start that respects FIND_NOT_EMPTY and MATCH_WHOLE_STRING, and a filled region's whole-match slot spans it |
| Exec.InitialMachine | src/regexec.rs:778-813 | `match_at` starts from a well-formed machine: the first instruction, the bottom alternative and no capture records |
| Exec.MatchAt | src/regexec.rs:778-2218 | `match_at` returns MISMATCH or a valid match length with its region, a region exactly when given one, and a saved longest match equal to the result |
| Exec.Prepared | src/regexec.rs:2306-2309 | every attempt receives the caller's region resized to one slot per group plus the whole match and cleared |
| Exec.OnigMatch | src/regexec.rs:2234-2263 | `onig_match` answers MISMATCH or a valid match length at `at`, with a region exactly when given one, and answers exactly when the run finishes |
| Exec.Tried | src/regexec.rs:2281-2354 | the positions a forward search tries start at `start` and stay within `range` |
| Exec.Attempt | src/regexec.rs:2296-2330 | an attempt that finishes reports a valid match length from its position, with a region exactly when the caller gave one |
| Exec.MatchLen | src/regexec.rs:2310-2330 | an attempt is credited with its value unless a longest match was saved |
| Exec.SearchFrom | src/regexec.rs:2296-2340 | the search loop's hit is a position at or after the start, found without FIND_LONGEST, whose attempt matched, together with that attempt's region; a best start the scan ends with is one whose attempt matched |
| Exec.SearchFromFirstMatch | src/regexec.rs:2296-2340 | the first-match search stops at the first tried position whose attempt matches and runs off the end only when none does |
| Exec.SearchFromLongest | src/regexec.rs:2296-2340 | the longest-match search credits the longest match among the tried positions to the first position reaching it |
| Exec.SearchFromKeepsRegion | src/regexec.rs:2296-2340 | the search hands back a region exactly when it was given one |
| Exec.ScanReply | src/regexec.rs:2296-2354 | a scan answers unless it was stopped, with its region, and answers MISMATCH exactly when it ran out of positions |
| Exec.FirstReplyOfScan | src/regexec.rs:2296-2354 | a first-match scan gives a first-match reply |
| Exec.LongestReplyOfScan | src/regexec.rs:2296-2354 | a longest-match scan from nothing, re-run at its best start, gives a longest-match reply |
| Exec.SearchWithFirst | src/regexec.rs:2281-2354 | without FIND_LONGEST the search answers the first tried position whose attempt matches, or MISMATCH when none does |
| Exec.SearchWithLongest | src/regexec.rs:2281-2354 | with FIND_LONGEST the search answers the first tried position whose match is the longest |
| Exec.SearchWithRegion | src/regexec.rs:2281-2354 | a position the search answers is one whose attempt matched, and comes with the region that attempt filled |
| Exec.AttemptFn | src/regexec.rs:2296-2330 | the attempts of `onig_search` are `match_at` at each position on a freshly prepared region |
| Exec.OnigAttemptsAgree | src/regexec.rs:2296-2350 | the attempts `onig_search` makes during the scan agree with its re-run of the best start |
| Exec.RerunIsAttempt | src/regexec.rs:2340-2350 | re-running the best start on the region the scan hands back repeats the attempt made there |
| Exec.OnigSearchBackward | src/regexec.rs:2290-2295 | a start past the range is not searched: MISMATCH with the region untouched |
| Exec.OnigSearchFirst | src/regexec.rs:2281-2354 | `onig_search` without FIND_LONGEST answers the first tried position whose attempt matches |
| Exec.OnigSearchLongest | src/regexec.rs:2281-2354 | `onig_search` with FIND_LONGEST answers the first tried position whose match is the longest |
| Exec.OnigSearchRegion | src/regexec.rs:2281-2354 | a position `onig_search` answers comes with its attempt's region, which holds one slot per group plus the whole match, and whose whole-match slot starts at that position |
| Exec.OnigSearchAnswered | src/regexec.rs:2281-2354 | a position `onig_search` answers is one whose attempt matched, with the region that attempt filled |
| Exec.AnsweredRegionStartsThere | src/regexec.rs:833-870 | an answer given by `match_at` attempts carries a region whose whole-match slot begins at the answered position and ends no earlier |
| RegSet.ReplayAnchor | src/regset.rs:86-116 | the set's anchor flags are exactly those every member has |
| RegSet.ReplayFlags | src/regset.rs:97-116 | the set is all-low-high exactly when every member is, and anychar-inf exactly when some member is |
| RegSet.ReplayWindow | src/regset.rs:100-108 | while an anchor is common, the distance window runs from the smallest member minimum to the largest member maximum, both attained by members |
| RegSet.ReplayWindowFrozen | src/regset.rs:100-109 | once a prefix of the members shares no anchor, the later members leave the window as that prefix set it |
| RegSet.EmptySet | src/regset.rs:49-69 | the set starts valid and with no members |
| RegSet.Add | src/regset.rs:71-121 | `onig_regset_add` refuses, with INVALID_ARGUMENT, exactly a pattern that may not join a set or whose encoding differs from the members'; otherwise it appends the pattern and keeps the set valid |
| RegSet.AddAll | src/regset.rs:49-69 | adding the remaining patterns succeeds exactly when each is admissible and shares the first one's encoding, giving a valid set of all of them |
| RegSet.NewSet | src/regset.rs:49-69 | `onig_regset_new` gives a valid set of exactly the given patterns when each is admissible and shares one encoding, and INVALID_ARGUMENT otherwise |
| RegSet.Replace | src/regset.rs:123-208 | `onig_regset_replace` refuses an index past the members; otherwise it removes member `at` or puts the new pattern in its place, recomputes the aggregate from the members that remain, and keeps the set valid |
| RegSet.NumberOfRegex | src/regset.rs:210-213 | the count is the number of members |
| RegSet.GetRegex | src/regset.rs:215-218 | member `at` is returned exactly when it exists |
| RegSet.TryEach | src/regset.rs:225-277 | trying the members in order answers the first member that matches, passes on the first error, and gives MISMATCH exactly when no tried member answers anything else |
| RegSet.Positions | src/regset.rs:225-277 | the positions visited start at `s` and stay before the range |
| RegSet.PositionLeadFrom | src/regset.rs:225-277 | the position lead answers the first position where some member matches, with the first such member, every earlier position having stayed quiet; MISMATCH exactly when every position stays quiet; an error comes with position 0 |
| RegSet.RegexLeadFrom | src/regset.rs:279-322 | the regex lead answers MISMATCH or a member index, with a non-negative position |
| RegSet.RegexLeadSearch | src/regset.rs:279-322 | the regex lead's answer is MISMATCH or a member index below the member count |
| RegSet.RegexLeadEarliest | src/regset.rs:279-322 | without priority the answer is the member whose match starts earliest, the lower index winning a tie, at its match position; MISMATCH exactly when no member matches before the range |
| RegSet.RegexLeadSearchAnswer | src/regset.rs:279-322 | with members that search to their earliest match, the regex lead answers MISMATCH exactly when no member matches before the range (or at 0); otherwise a member at its earliest match, which is the earliest of all (lower index on ties) or, with priority, the first matching member in order |
| RegSet.PriorityFirstMember | src/regset.rs:279-322 | with PriorityToRegexOrder the answer is the first member, in order, that matches before the range, at its match position; MISMATCH exactly when none does |
| RegSet.EndWindow | src/regset.rs:387-425 | the window an end anchor leaves starts at or after `start` and stays within the range |
| RegSet.EndWindowKeeps | src/regset.rs:387-425 | the window keeps every start from which a match could end within the end bounds at a distance within the anchor distances |
| RegSet.AnchorWindow | src/regset.rs:379-430 | without a common anchor, or on an empty subject, the whole range is searched; a window never starts before `start` |
| RegSet.EmptyRangeSearch | src/regset.rs:356-372 | on an empty range the answer is the first member with threshold length 0 that matches at `start`, and MISMATCH exactly when none of those matches |
| RegSet.Search | src/regset.rs:324-455 | `onig_regset_search` answers MISMATCH for an empty set or a start past the end, INVALID_ARGUMENT for a range before the start, and otherwise a member index that matches at the answered position under the position lead |
| RegSet.SearchWithParam | src/regset.rs:456-553 | `onig_regset_search_with_param` answers MISMATCH for an empty set, INVALID_ARGUMENT when a member lacks a parameter, and otherwise a member index that matches at the answered position under the position lead |
| RegSet.SearchPositionLead | src/regset.rs:324-455 | a non-empty search with the position lead answers MISMATCH when the anchor leaves no window, and otherwise the first position of the window where a member decides, with the first such member, every earlier position quiet; MISMATCH exactly when no member decides anywhere in the window |
| RegSet.SearchRegexLead | src/regset.rs:324-455 | a non-empty search with a regex lead answers MISMATCH when the anchor leaves no window, and otherwise the earliest member match from the window start (the first matching member with priority), MISMATCH exactly when no member matches before the range |
| RegSet.SearchWithParamPositionLead | src/regset.rs:456-553 | with the position lead, `onig_regset_search_with_param` answers the first position from `start` where a member decides, with the first such member; MISMATCH exactly when no member decides before the range |
| RegSet.SearchWithParamRegexLead | src/regset.rs:456-553 | with a regex lead, `onig_regset_search_with_param` answers the earliest member match from `start` (the first matching member with priority), MISMATCH exactly when no member matches before the range |
| Scanner.Width8 | src/scanner.rs:165-203 | a character takes 1 to 4 UTF-8 bytes |
| Scanner.Width16 | src/scanner.rs:165-203 | a character takes one UTF-16 code unit, or two for a supplementary character |
| Scanner.Table16 | src/scanner.rs:165-203 | the UTF-16-to-UTF-8 table has one entry per code unit |
| Scanner.Table8 | src/scanner.rs:165-203 | the UTF-8-to-UTF-16 table has one entry per byte |
| Scanner.NewOnigString | src/scanner.rs:165-203 | `OnigString::new` ends each table in a sentinel giving the other encoding's total length |
| Scanner.Utf16OffsetToUtf8 | src/scanner.rs:216-222 | a UTF-16 offset converts to a byte offset within the string |
| Scanner.Utf8OffsetToUtf16 | src/scanner.rs:225-231 | a byte offset converts to a UTF-16 offset within the string |
| Scanner.Table16Bounded | src/scanner.rs:165-203 | every UTF-16-to-UTF-8 entry lies within the string's bytes |
| Scanner.Table8Bounded | src/scanner.rs:165-203 | every UTF-8-to-UTF-16 entry lies before the string's UTF-16 length |
| Scanner.Table16At | src/scanner.rs:165-203 | a character's first code unit maps to its first byte, and the low surrogate of a supplementary character to the byte after it |
| Scanner.Table8At | src/scanner.rs:165-203 | every byte of a character maps to the character's first code unit |
| Scanner.OffsetRoundTrip | src/scanner.rs:165-231 | the offset of a character start, or of the end, converts to UTF-16 and back unchanged |
| Scanner.InsideCharacter | src/scanner.rs:165-231 | a byte inside a character converts to that character's first code unit, and a low surrogate to the byte after its character |
| Scanner.OffsetsClamp | src/scanner.rs:216-231 | offsets past the end convert to the other encoding's length |
| Scanner.SupplementaryExample | src/scanner.rs:1177-1203 | for "a", U+1F4BB, "b" the UTF-16 length is 4 and the tables are [0,1,5,5,6] and [0,1,1,1,1,3,4] |
| Scanner.ToOnigOptions | src/scanner.rs:52-64 | find-option bits 1, 2 and 4 set NOT_BEGIN_STRING, NOT_END_STRING and NOT_BEGIN_POSITION exactly, and no other option |
| Scanner.BuildMatch | src/scanner.rs:565-588 | `build_scanner_match` gives one capture per region slot: the slot's offsets when both are set, else (0, 0, 0); each length is end minus start |
| Scanner.ConvertMatchToUtf16 | src/scanner.rs:597-613 | `convert_match_to_utf16` keeps the index and converts every capture's offsets to UTF-16, its length agreeing |
| Scanner.ConvertKeepsCharacters | src/scanner.rs:597-613 | a capture over whole characters lands on the UTF-16 offsets of the same characters |
| Scanner.ContainsG | src/scanner.rs:246-256 | the check for `\G` holds exactly when the pattern contains a backslash followed by G |
| Scanner.NewCacheEntryAsWritten | src/scanner.rs:246-256 | as written, a fresh entry records the `\G` test, no match, and u32::MAX as its last options (see Findings) |
| Scanner.NewCacheEntry | src/scanner.rs:246-256 | the corrected fresh entry records the `\G` test, no match, and no last options, so no lookup can hit it |
| Scanner.VisitPattern | src/scanner.rs:488-556 | one turn of the per-pattern loop changes only pattern `i`'s cache entry, can only make `i` the best, and stops only on a match at `start` |
| Scanner.PerRegexFrom | src/scanner.rs:488-556 | the loop keeps the entries before `i`, and the best it ends with is the one it started with or a later pattern |
| Scanner.SearchPerRegex | src/scanner.rs:472-561 | `search_per_regex` answers a pattern index whose cache entry holds a region |
| Scanner.SearchPerRegexEarliest | src/scanner.rs:472-561 | with consistent caches, `search_per_regex` answers the pattern whose match from `start` is earliest, the lower index winning a tie, answers nothing when no pattern matches, and leaves the caches consistent |
| Scanner.PerRegexEarliest | src/scanner.rs:472-561 | with caches consistent with the true searches, the loop picks the pattern whose match from `start` is earliest, the lower index winning a tie, and leaves the caches consistent |
| Scanner.VisitEarliest | src/scanner.rs:488-556 | one turn takes pattern `i` into account among the earliest and keeps the caches consistent |
| Scanner.CachedMiss | src/scanner.rs:492-500 | a cached miss from at or before `start` means no match from `start` |
| Scanner.CachedMatch | src/scanner.rs:492-511 | a cached match at or after `start`, found from at or before it, is the match a search from `start` finds |
| Scanner.RecordKeepsConsistent | src/scanner.rs:534-557 | recording a fresh search's true outcome keeps the caches consistent |
| Scanner.AfterBreak | src/scanner.rs:545-551 | a match right at `start` beats every later pattern, so breaking there keeps the earliest |
| Scanner.FreshConsistent | src/scanner.rs:246-256 | a scanner's corrected fresh entries are consistent with any search outcome |
| Scanner.FreshScannerAsWrittenMisses | src/scanner.rs:492-500 | as written, a fresh entry hit with options u32::MAX and id 0 reports no match, whatever the search finds (see Findings) |
| Scanner.FreshScannerAsWrittenExample | src/scanner.rs:492-500 | for the pattern "a" matching at 0, the as-written entry reports nothing while the corrected entry reports pattern 0 at 0 |
| Scanner.FindNextMatchInner | src/scanner.rs:415-437 | `find_next_match_inner` answers nothing past the end; below 1000 bytes it answers the pattern set's match built from its region and keeps the caches; from 1000 bytes it is the per-pattern search |
| RegError.PlaceholderInTail | src/regerror.rs:131-154 | a placeholder found in the tail of a text is one of the whole text |
| RegError.ReplaceWithoutPlaceholder | src/regerror.rs:131-154 | replacing `%n` in a text without it leaves the text unchanged |
| RegError.ReplaceSplice | src/regerror.rs:131-154 | with one `%n` between placeholder-free text, the replacement splices the parameter into its place |
| RegError.HexDigit | src/regerror.rs:137-146 | a hexadecimal digit is a printable character |
| RegError.HexDigitRoundTrip | src/regerror.rs:137-146 | a digit's value reads back from the digit written for it |
| RegError.EscapeByte | src/regerror.rs:137-146 | a graphic byte or space appears as itself, any other byte as `\x` and two digits; either way the text is printable |
| RegError.EscapeByteReadsBack | src/regerror.rs:137-146 | the two digits of an escaped byte read back as that byte |
| RegError.EscapeParam | src/regerror.rs:137-146 | the escaped parameter is printable |
| RegError.EscapeKeepsPrintable | src/regerror.rs:137-146 | a parameter of graphic bytes and spaces appears unchanged |
| RegError.EscapeLength | src/regerror.rs:137-146 | escaping never makes the parameter shorter |
| RegError.PlaceholderPartsPlain | src/regerror.rs:11-126 | the format of every code that needs a parameter has exactly one `%n`: the text around it holds no `%` |
| RegError.ErrorCodeToStrSplices | src/regerror.rs:131-154 | a code without a parameter renders as its format; a code with one renders as its format with the escaped parameter, or nothing when none is given, in place of `%n` |
| RegError.PlainMessageExamples | src/regerror.rs:164-183 | MISMATCH renders "mismatch", the memory error "fail to memory allocation" and an unknown code "undefined error code" |
| RegError.ParamMessageExamples | src/regerror.rs:185-199 | the undefined-name error renders with the name "foo" between angle brackets, or with nothing there when no name is given |
| Errors.FromCode | src/error.rs:64-103 | a code becomes a syntax error exactly when it is a pattern error without a variant of its own and not an encoding error, an internal bug exactly for the five bug codes, an encoding error exactly for the three encoding codes, and Other exactly when no class claims it |
| Errors.CodeRoundTrip | src/error.rs:64-123 | every code comes back unchanged from the error built from it |
| Errors.FromCodeOfCode | src/error.rs:64-123 | an error rebuilds from its own code exactly when it is one that a code produces, with that code's message |
| Errors.NatToDecimal | src/error.rs:57 | a decimal numeral is non-empty, all digits, and without a leading zero |
| Errors.DecimalRoundTrip | src/error.rs:57 | a numeral's value is the number it was written for |
| Errors.IntToDecimal | src/error.rs:57 | a numeral starts with a minus sign exactly for a negative number |
| Errors.IntDecimalRoundTrip | src/error.rs:57 | a signed numeral reads back as its number |
| Errors.DisplayNamesClass | src/error.rs:42-60 | the text of a syntax, internal or encoding error is its class prefix followed by the code's message |
| Errors.DisplayOtherReadsBack | src/error.rs:57 | the text of an unclassified error is "error code " followed by a numeral that reads back as the code |
| Errors.ErrorExamples | src/error.rs:130-168 | the memory, syntax, parser-bug, encoding and unknown codes map to the variants the source's tests expect, and two texts are as the tests expect |
| Api.AsUsize | src/api.rs:80-81 | an i32 offset cast to `usize` keeps non-negative values, and a negative one wraps far beyond any text |
| Api.AsBytes | src/api.rs:287-294 | `Match::as_bytes` is the text's bytes from start to end, one per position |
| Api.MatchAccessorsAgree | src/api.rs:270-309 | a match's length equals its byte count and its range's width, it is empty exactly when its length is 0, and the text is the part before, the match, and the part after |
| Api.CapturesGet | src/api.rs:326-340 | `Captures::get` gives nothing exactly for a group beyond the region or one that did not take part, and otherwise the group's offsets in the same text |
| Api.CapturesItems | src/api.rs:365-405 | the captures iterator yields one item per group, in order, each what `get` gives |
| Api.FirstParticipatingIsFirst | src/api.rs:343-352 | `Captures::name` gives the match of the first listed group that took part, and nothing exactly when none did |
| Api.FindBytes | src/api.rs:63-83 | `find_bytes` finds a match exactly when the search result is non-negative and the region has the whole-match slot; the match spans that slot |
| Api.FindAgreesWithIsMatch | src/api.rs:63-102 | for the same search, `find_bytes` finds a match exactly when `is_match_bytes` says there is one |
| Api.ReplyFind | src/api.rs:63-83 | a halted search or a negative result gives no match |
| Api.Next | src/api.rs:424-475 | `FindIter::next` either yields a match or stops with the iterator unchanged or moved forward |
| Api.NextAdvances | src/api.rs:424-475 | a yielded match lies in the text at or after the last end, the iterator moves strictly forward to the match's end, and an empty match right after an empty match starts beyond the last end |
| Api.EmptyPatternSearch | src/api.rs:576-585 | the empty pattern's search is a well-formed search |
| Api.EmptyPatternOverAb | src/api.rs:576-585 | the empty pattern over "ab" yields empty matches at 0, 1 and 2 and then stops |
| Api.SetOptionTouchesOne | src/api.rs:200-238 | a builder setter turns its option on for true and off for false, and changes neither the pattern nor any other option bit |
| Api.WithOptionAddsBits | src/api.rs:240-246 | `RegexBuilder::option` turns its bits on and keeps the pattern and every other bit |
| Api.SetThenClearRestores | src/api.rs:200-208 | setting and then clearing case insensitivity on a builder without it gives back the same builder |
| RegTrav.CaptureTreeTraverse | src/regtrav.rs:57-66 | `onig_capture_tree_traverse` on a region without capture history calls nothing and returns 0 |
| RegTrav.Scan | src/regtrav.rs:9-52 | handing events to the callback in order stops at the first non-zero answer and returns it, after a non-empty prefix of the events; when every answer is 0 all events are handed over and 0 is returned |
| RegTrav.ScanStopsAtFirst | src/regtrav.rs:18-49 | every call before the last one of a scan answered 0 |
| RegTrav.ScanAppend | src/regtrav.rs:31-36 | scanning two event lists one after the other scans the second only when the first answered 0 all through |
| RegTrav.TraverseIsScan | src/regtrav.rs:9-52 | `capture_tree_traverse` makes exactly the calls its pre- and post-order event list names, in that order, and returns the first non-zero answer, or 0 |
| RegTrav.ChildrenIsScan | src/regtrav.rs:31-36 | the walk over the children is the scan of their events in order |
| RegTrav.EventsCover | src/regtrav.rs:9-52 | every node is visited once per selected kind, at a depth no less than the subtree's, and every visit is of a selected kind |
| RegTrav.ChildrenCover | src/regtrav.rs:31-36 | the children's events number the selected kinds times their nodes, each one level or more below and of a selected kind |
| RegTrav.RootPlacement | src/regtrav.rs:18-49 | in pre-order the root's visit comes first at the starting depth, in post-order it comes last |
| RegTrav.ExampleOrders | tests/compat_utf8.rs:10686-10695 | on a root with two children, pre-order visits groups 0, 1, 2 with the children one level down, post-order visits 1, 2, 0, and a callback that always answers 0 makes both return 0 |

## Left out

- The test suites and benchmarks, the C FFI layer, the build script and the code generators are not part of this model; the test expectations appear only as worked examples (the `*Examples` lemmas).
- The `Encoding` trait object is a two-constructor datatype (`Encoding.Enc`) with dispatch functions. Only UTF-8 and ASCII are modelled, because only they are in the core.
- The generated Unicode property tables (`PROPERTY_NAMES`, `CODE_RANGES`) are parameters: a sorted name table and per-ctype range lists.
- Unicode case folding is an identity stub in the source. Its fold tables are not modelled, and the ASCII-delegating entry points are.
- The tokenizer and recursive-descent parser (`fetch_token`, `prs_*`) are left out. They are incomplete in the source, and they build lists through raw pointers. Their helpers are modelled over the already-fetched character sequence, so positions count characters.
- The global atomic parse limits (such as the capture limit) are parameters.
- Raw parent/target pointers, `MemEnv`, `UnsetAddr` and the `unsafe impl Send/Sync` declarations carry no behaviour and are not modelled.
- The VM's step covers these opcodes:
  - the literal opcodes;
  - the single-byte class opcodes;
  - back-references 1 and 2;
  - captures;
  - the branch, mark, repeat and empty-check opcodes;
  - the callouts.
- Every other opcode makes `Exec.Step` answer `Unmodelled`, and the run then aborts. Among them:
  - the multi-byte and mixed class opcodes (their range test is `CodeRange.IsInCodeRange`);
  - any-char;
  - word and word-boundary tests;
  - the grapheme-cluster heuristics and the word text-segment boundary, which is always true;
  - line and buffer anchors;
  - numbered and level back-references (level back-references are stubbed to fail);
  - case-insensitive comparison through `string_cmp_ic`;
  - look-behind steps;
  - subexpression calls.
- Callout opcodes are skipped, as in the source.
- Exec.Run: bounded by `fuel` instructions. A run that needs more reports `OutOfFuel` and says nothing about the source's result.
- The retry, time and stack limits exist in the source only as constants and are not enforced in `match_at`. The model does not enforce them either.
- Backward search, which the source answers with MISMATCH, is not modelled. The FIND_LONGEST re-run of the whole search is modelled only through the longest-match bookkeeping of one search.
- Compile: the two-pass agreement of `compile_length_tree` with the ops emitted is not stated. It fails in the source for quantifiers with lower bound 1.
- Compile.Repeated: the contract states the length of the copies, not their content.
- Compile.CompileStringNode and Compile.CompileStringNodeAsWritten require the string to be whole characters. For a truncated last character the source's slice in `add_compile_string` panics, and the panic is not modelled.
- Compile: the ignore-case status read by `compile_string_node` has no effect there and is not modelled.
- Bitset.BitsetSetRange requires `to < 256` (or an empty range). For a larger `to` the source indexes past the set and panics, and the panic is not modelled.
- Exec.StepEnd, Exec.FillRegion and Exec.SearchFrom: the `as i32` casts of the match length, the region offsets and the answered position (src/regexec.rs:838-859 and 2323-2329) are not modelled. They are exact for subjects shorter than 2^31 bytes; for longer subjects the source reports wrapped values, and the model, with `Exec.OnigMatch` and `Exec.OnigSearchFirst` above it, reports the true ones.
- Scanner.BuildMatch computes a capture's length `end - start` as an integer. The source subtracts in usize, which panics or wraps when a slot's end precedes its start (possible after `\K` inside a look-ahead); that case is not modelled.
- The usize wrap-around of the matcher's position arithmetic is modelled only where a subtraction can underflow (`Exec.Usize`). Other panics are modelled as the `Trapped` abort.
- In regset search, the u32 cast of `max_semi_end` is not modelled: positions are naturals.
- Regset regions per member, `get_region`, and FIND_NOT_EMPTY inside regset search are left out, because the member searches are parameters.
- RegSet.RegexLeadFrom and RegSet.RegexLeadSearch state the guard and result shape only. Their partners RegSet.RegexLeadEarliest and RegSet.PriorityFirstMember carry the ordering.
- Scanner: `MatchArg` reuse and allocation are not modelled. The calls into `onig_search_with_msa` and `reset_for_search` are a search parameter.
- Api: the `as_str` UTF-8 panic, the `Debug` implementations, `with_config` and the syntax argument of compilation are left out.
- Api.SetOptionTouchesOne requires a non-zero flag, because the builder's setters pass only their own non-zero option constants, and a zero flag could never test as on.
- Oniguruma.ResizeRegion takes the new size as a natural. A negative i32 would be cast to a huge usize and abort on allocation, which is not modelled.
- RegTrav.CaptureTreeTraverse states only the no-history case. RegTrav.TraverseIsScan carries the order and early-stop properties.
- RegTrav: the callback is a pure function of the events it has been handed, standing in for a closure with state.
- RegError.PlainMessageExamples: the "undefined error code" default is shown for one unlisted code rather than stated for all of them.
- Utf8: the decoder and encoder agree for code points below 0x110000. Above it the source's 4-byte lead check (up to 0xF4) and its encoder (up to 0x1FFFFF) differ, and the model states each side as written.

## Findings

| source | as written | input that shows it | evidently intended | confidence | as-written member | corrected member |
|---|---|---|---|---|---|---|
| src/regcomp.rs:167-197 | a run of 6 to 16 single-byte characters gets an `Exact` payload while `select_str_opcode` picks `StrN`, and `StrN` in the matcher only accepts an `ExactN` payload, so the literal never matches | the pattern `abcdef` against the text "abcdef" | a `StrN` literal carries an `ExactN` payload and matches its own bytes | not executed | Compile.CompileStringNodeAsWritten, CompiledMatch.AbcdefNode, CompiledMatch.AbcdefAsWrittenMismatches | Compile.CompileStringNode, CompiledMatch.AbcdefMatches |
| src/regenc.rs:249-251 | the ASCII ctype entry of 0x08 (backspace) is 0x420c, which has the space and blank bits, and the ASCII encoding's `is_code_ctype` reads that table, so it reports backspace as space and blank | code 0x08 with the SPACE ctype | 0x4008, control only, as in the ISO-8859-1 table | not executed | Regenc.AsciiCtypeAsWrittenBackspaceIsSpace, Ascii.AsciiIsCodeCtypeSpec | Regenc.AsciiCtypeOtherClasses, Ascii.BackspaceOnlyDifference |
| src/scanner.rs:246-257 | a fresh cache entry records `u32::MAX` as its last options, a value a caller can also pass, so a cached "no match" is reused for a search never run | a fresh scanner over `a`, a text of 1000 bytes or more with "a" at 0, string id 0 and options 0xFFFFFFFF | a fresh entry matches no caller's options, so the first search runs | not executed | Scanner.FreshScannerAsWrittenExample | Scanner.FreshConsistent |
