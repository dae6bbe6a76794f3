# zsync2 string and byte helpers, in Dafny

This project models the string and byte helpers of zsync2's `src/zsutil.cpp` and proves properties about them:

- whitespace trimming (`ltrim`, `rtrim`, `trim`) of a caller's string, edited in place, with a "changed" flag;
- the absolute-URL heuristic `isUrlAbsolute`;
- `pathPrefix`, the alphanumeric head of the last path segment;
- `toLower` and `endsWith`;
- `split`, which follows `std::getline` semantics;
- `base64Decode`, with the RFC 4648 section 4 alphabet, no padding, and truncation at the first character outside the alphabet;
- `bytesToHex`, lower-case and two digits per byte.

Character classes are those of the "C" locale: `isspace` is space and `\t`..`\r`, `isalnum` is ASCII letters and digits, and `tolower` only maps `A`..`Z`.

Modules, one per area of the file:

| file | module | models |
|---|---|---|
| `trim.dfy` | `Trimming` | `ltrim`, `rtrim`, `trim` |
| `url.dfy` | `UrlClassifier` | `isUrlAbsolute` |
| `path.dfy` | `PathClassifier` | `pathPrefix` |
| `strings.dfy` | `StringHelpers` | `toLower`, `endsWith` |
| `split.dfy` | `Splitter` | `split` |
| `bits.dfy` | `Bits` | bit lists, bytes, big-endian values (shared) |
| `base64.dfy` | `Base64` | `base64Decode` and a reference encoder |
| `hex.dfy` | `Hex` | `bytesToHex` and its inverse |
| `wrappers.dfy` | `Wrappers` | `Option`, for `npos` results |
| `sequences.dfy` | `Sequences` | shared sequence facts |

How the code's form is kept:

- The string that `ltrim`, `rtrim` and `trim` take by reference is a `MutableString` object. The methods reassign its `value`.
- The `find_if` scans they use are loop methods proved against the specification functions `TrimLeft` and `TrimRight`.
- `split`, `base64Decode` and `bytesToHex` are loop methods proved equal to the specification functions `Fields`, `Decode` and `ToHex`.
- `bytesToHex` reads from an `array`, as the source reads from a raw `unsigned char*` buffer.
- `isUrlAbsolute`, `pathPrefix`, `toLower` and `endsWith` are pure, so they are functions.

The decoder's `int val` is a 32-bit accumulator that keeps shifting left and overflows after about five characters. The model keeps its 32-bit bit pattern explicitly as `(val * 64 + t) % 2^32`. `Base64.WrappedByte` proves that the bits the decoder reads are unaffected by the wrap: `(val >> valb) & 0xFF` with `valb` in {0, 2, 4} only reads bits 0 to 11. In two's complement, a negative `int` has the same low bits, and its arithmetic shift moves the same bits into the low byte.

Edge cases of the code that the model pins down:

- `trim` calls `ltrim` first and `rtrim` second. `Trimming.TrimOrderIrrelevant` proves that trimming the back first gives the same string.
- `trim("   ")` reports false: `ltrim` removes everything, `rtrim` then finds nothing to remove, and the two flags are combined with `&&` (`Trimming.TrimReportMissesOneSidedChange`).
- `pathPrefix("/onlyslash")` returns `"onlyslash"`, the text after the last slash (`PathClassifier.PathPrefixLeadingSlash`).
- `"SGVsbG8="` has seven valid characters before the `=`. They carry 42 bits, so the code emits five bytes (`Base64.DecodeUnpaddedHelloLength`).

## Model

| member | source | states |
|---|---|---|
| `Trimming.IsSpace` | src/zsutil.cpp:25-36 | `isspace` in the "C" locale: true exactly for the codes 9 to 13 and 32 |
| `Trimming.TrimLeft` | src/zsutil.cpp:25-27 | the result is a suffix of the input, everything removed is whitespace, and the result is empty or starts with a non-space |
| `Trimming.TrimRight` | src/zsutil.cpp:34-36 | the result is a prefix of the input, everything removed is whitespace, and the result is empty or ends with a non-space |
| `Trimming.TrimLeftAt` | src/zsutil.cpp:25-27 | cutting the string at its first non-space index gives exactly `TrimLeft` |
| `Trimming.TrimRightAt` | src/zsutil.cpp:34-36 | cutting the string after its last non-space index gives exactly `TrimRight` |
| `Trimming.FirstNonSpace` | src/zsutil.cpp:25-27 | the `find_if` scan returns the first index that is not whitespace (or the end), and the erase leaves `TrimLeft(s)` |
| `Trimming.EndOfNonSpace` | src/zsutil.cpp:34-36 | the reverse `find_if(...).base()` returns the index just past the last non-space (or 0), and the erase leaves `TrimRight(s)` |
| `Trimming.LTrim` | src/zsutil.cpp:22-29 | the caller's string becomes `TrimLeft` of its old value; the flag is true iff the length decreased; `to_trim` has no effect |
| `Trimming.RTrim` | src/zsutil.cpp:31-38 | the caller's string becomes `TrimRight` of its old value; the flag is true iff the length decreased; `to_trim` has no effect |
| `Trimming.TrimIdempotent` | src/zsutil.cpp:22-44 | trimming the left twice, the right twice, or the whole string twice (left then right) changes nothing further |
| `Trimming.TrimChangedIff` | src/zsutil.cpp:28 | each side's flag is true iff the string is non-empty and starts (ends) with whitespace |
| `Trimming.Trim` | src/zsutil.cpp:40-44 | both sides are trimmed, left first; the flag is ltrim's flag and rtrim's flag (on what ltrim left) joined by `&&` |
| `Trimming.TrimOrderIrrelevant` | src/zsutil.cpp:42-43 | trimming left then right leaves the same string as right then left |
| `Trimming.TrimReport` | src/zsutil.cpp:42-43 | the value `trim` returns, `rtrim`'s flag `&&` `ltrim`'s flag; when it is true the string changed |
| `Trimming.TrimRightDropFront` | src/zsutil.cpp:31-38 | dropping a front that the right trim never reaches commutes with the right trim |
| `Trimming.TrimLeftOfTrimRight` | src/zsutil.cpp:22-38 | when something non-space remains, the right trim keeps the leading whitespace and the first non-space character |
| `Trimming.TrimReportIff` | src/zsutil.cpp:40-44 | `trim` reports true iff the string starts and ends with whitespace and holds a non-space character |
| `Trimming.TrimReportMissesOneSidedChange` | src/zsutil.cpp:41-43 | `"  a"` becomes `"a"` and `"   "` becomes `""`, and in both cases `trim` reports false |
| `Trimming.TrimReportingAny` | src/zsutil.cpp:41 | the flag as the comment describes it (`||`): true iff the string changed |
| `UrlClassifier.IsSpecial` | src/zsutil.cpp:61-63 | membership in the `special` array: exactly `:`, `/` and `?` |
| `UrlClassifier.FindFirstSpecial` | src/zsutil.cpp:62-64 | `find_first_of(":/?")`: `None` iff no special character occurs; otherwise the least index holding one |
| `UrlClassifier.IsUrlAbsolute` | src/zsutil.cpp:61-80 | true iff some `:` at an index above 0 has no `:`, `/` or `?` before it |
| `UrlClassifier.NotAbsoluteCases` | src/zsutil.cpp:66-79 | false for the empty string, for no special character, for a special character at index 0, and when a `/` or `?` comes before any `:` |
| `UrlClassifier.AbsoluteHttp` | src/zsutil.cpp:61-80 | `http://example.com` is absolute |
| `UrlClassifier.RelativeLeadingSlash` | src/zsutil.cpp:66-79 | `/a/b/c` is not absolute: its first special character is at index 0 |
| `UrlClassifier.RelativePath` | src/zsutil.cpp:66-79 | `relative/path` is not absolute: a `/` comes before any `:` |
| `UrlClassifier.RelativeLeadingColon` | src/zsutil.cpp:66-79 | `:weird` is not absolute: the `:` is at index 0 |
| `PathClassifier.IsAlnum` | src/zsutil.cpp:91 | `isalnum` in the "C" locale: exactly the ASCII codes of `0`-`9`, `A`-`Z` and `a`-`z` |
| `PathClassifier.FindLastSlash` | src/zsutil.cpp:84 | `find_last_of('/')`: `None` iff there is no slash; otherwise the greatest index holding one |
| `PathClassifier.LastSegment` | src/zsutil.cpp:84-88 | the longest slash-free suffix of the path, preceded by a slash when it is not the whole path |
| `PathClassifier.AlnumRunLength` | src/zsutil.cpp:91 | `find_if_not(isalnum)` as a distance: every earlier character is alphanumeric, and the one there (if any) is not |
| `PathClassifier.AlnumHead` | src/zsutil.cpp:90-94 | `substr(0, n)`: the longest all-alphanumeric prefix of the segment |
| `PathClassifier.PathPrefix` | src/zsutil.cpp:82-95 | the longest all-alphanumeric prefix of the last segment; it holds no `/` |
| `PathClassifier.PathPrefixEmptyIff` | src/zsutil.cpp:91-94 | the result is empty iff the segment is empty or starts with a non-alphanumeric character |
| `PathClassifier.LastSegmentAfterSlash` | src/zsutil.cpp:84-88 | for a path `head/tail` whose `tail` has no slash, the segment is `tail` |
| `PathClassifier.LastSegmentLeadingSlash` | src/zsutil.cpp:84-88 | when the only slash is the first character, the segment is the rest |
| `PathClassifier.PathPrefixOfSegment` | src/zsutil.cpp:90-94 | a segment made of an alphanumeric run, one other character and anything after gives that run |
| `PathClassifier.PathPrefixOfAlnumSegment` | src/zsutil.cpp:90-94 | an all-alphanumeric segment is returned whole |
| `PathClassifier.PathPrefixStopsAtDash` | src/zsutil.cpp:82-95 | `"foo/bar-123"` gives `"bar"` |
| `PathClassifier.PathPrefixWithoutSlash` | src/zsutil.cpp:85-94 | `"noslash"` gives `"noslash"` |
| `PathClassifier.PathPrefixLeadingSlash` | src/zsutil.cpp:84-88 | `"/onlyslash"` gives `"onlyslash"` |
| `PathClassifier.PathPrefixTrailingSlash` | src/zsutil.cpp:84-94 | `"dir/"` gives `""` |
| `StringHelpers.LowerChar` | src/zsutil.cpp:98 | `tolower` in the "C" locale: `A`..`Z` go to the matching `a`..`z`; every other character is unchanged |
| `StringHelpers.ToLower` | src/zsutil.cpp:97-100 | same length; non-uppercase characters unchanged; uppercase ones moved 32 code points up; no uppercase left |
| `StringHelpers.ToLowerIdempotent` | src/zsutil.cpp:97-100 | lower-casing twice equals lower-casing once |
| `StringHelpers.EqualFromBack` | src/zsutil.cpp:106 | the reverse-iterator `std::equal` is true iff `ending` equals the tail of `value` |
| `StringHelpers.EndsWith` | src/zsutil.cpp:102-107 | false when `ending` is longer; otherwise true iff `ending` is a suffix of `value` |
| `StringHelpers.EndsWithIffConcat` | src/zsutil.cpp:102-107 | true iff `value` is some string followed by `ending` |
| `Splitter.NextDelim` | src/zsutil.cpp:141 | the index where one `getline` stops: the first `delim` at or after the read position, or the end |
| `Splitter.FieldsFrom` | src/zsutil.cpp:141-143 | the items the remaining `getline` calls yield from the read position; none exactly when nothing is left to read |
| `Splitter.Fields` | src/zsutil.cpp:135-146 | the items `split` returns: none exactly for the empty string, and none contains `delim` |
| `Splitter.ScanItem` | src/zsutil.cpp:141 | the scan for the next delimiter stops at `NextDelim` |
| `Splitter.SplitStep` | src/zsutil.cpp:141-143 | one loop round: appending the item read to the result keeps `result + FieldsFrom(pos)` equal to all the items |
| `Splitter.FieldsStep` | src/zsutil.cpp:141-143 | one `getline`: the item runs to the next delimiter, which is consumed |
| `Splitter.FieldsHaveNoDelim` | src/zsutil.cpp:135-146 | no item contains the delimiter |
| `Splitter.JoinFields` | src/zsutil.cpp:135-146 | joining the items with `delim` gives `s`, or `s` without its last character when that is `delim` |
| `Splitter.FieldsKeepEmptyItems` | src/zsutil.cpp:141-143 | `"a,b,,c"` gives `["a", "b", "", "c"]` |
| `Splitter.FieldsKeepEmptyItemsAt` | src/zsutil.cpp:141-143 | for any three non-delimiter characters `a`, `b`, `c`, the text `a,b,,c` gives `[a]`, `[b]`, an empty item and `[c]` |
| `Splitter.FieldsDropTrailingEmpty` | src/zsutil.cpp:141-143 | `"a,"` gives `["a"]`, with no final empty item; `","` gives `[""]` |
| `Splitter.Split` | src/zsutil.cpp:135-146 | the loop returns exactly `Fields(s, delim)` |
| `Base64.Value` | src/zsutil.cpp:151-152 | the table `T`: -1 or a 6-bit value for every character |
| `Base64.ValueIsAlphabetIndex` | src/zsutil.cpp:152 | the table maps the `i`-th character of the alphabet string to `i` |
| `Base64.AlphabetIndexOfValue` | src/zsutil.cpp:151-152 | every character with a value is the alphabet character at that index, so nothing else is valid |
| `Base64.ValidLength` | src/zsutil.cpp:155-157 | the length of the longest all-valid prefix: every earlier character is valid, and the one there (if any) is not |
| `Base64.Decode` | src/zsutil.cpp:148-169 | the output has exactly `6 * k / 8` bytes, where `k` is the valid prefix length |
| `Base64.DecodeLengthByGroups` | src/zsutil.cpp:159-165 | 4 valid characters give 3 bytes; 2 and 3 leftover characters give 1 and 2 bytes; a single one gives none |
| `Base64.DecodeUnpaddedHelloLength` | src/zsutil.cpp:155-165 | `"SGVsbG8="` has 7 valid characters and decodes to 5 bytes |
| `Base64.DecodeOnlyReadsValidPrefix` | src/zsutil.cpp:155-157 | the output depends only on the valid prefix |
| `Base64.DecodeStopsAtInvalid` | src/zsutil.cpp:156-157 | whatever follows the first invalid character (such as `=`) is ignored |
| `Base64.ShiftSextet` | src/zsutil.cpp:159 | after `val = (val << 6) + T[c]`, the wrapped accumulator holds the wrapped value of the bits read so far |
| `Base64.WrappedByte` | src/zsutil.cpp:154-163 | the byte at a shift of 0, 2 or 4 is the same whether or not `val` has wrapped at 32 bits |
| `Base64.EmitStep` | src/zsutil.cpp:162-165 | once 8 or more bits are pending, `(val >> valb) & 0xFF` is the next complete byte of the bit stream |
| `Base64.PrefixBitsStep` | src/zsutil.cpp:155-159 | each further valid character appends its six bits, high bit first |
| `Base64.DecoderStart` | src/zsutil.cpp:149-154 | with `out` empty, `val == 0` and `valb == -8`, nothing is read and nothing is pending |
| `Base64.PendingStep` | src/zsutil.cpp:159-160 | a valid character that leaves `valb` negative keeps the loop's state: its bits join the pending ones and `val` stays the wrapped value of all bits |
| `Base64.EmittingStep` | src/zsutil.cpp:159-165 | a valid character that makes `valb` non-negative keeps the loop's state: the pushed byte is the next 8 bits and `valb` drops by 8 |
| `Base64.DecoderFinish` | src/zsutil.cpp:155-168 | when the loop stops, at the end or at the first invalid character, the fewer than 8 pending bits are dropped and `out` is `Decode(in)` |
| `Base64.Base64Decode` | src/zsutil.cpp:148-169 | the loop, with its wrapping 32-bit accumulator, returns exactly `Decode(in)` |
| `Base64.Encode` | src/zsutil.cpp:152 | the unpadded standard encoding uses only alphabet characters |
| `Base64.SextetBitsOfChars` | src/zsutil.cpp:152 | the decoder's table inverts the encoder's character choice for every 6-bit group |
| `Base64.DecodeEncode` | src/zsutil.cpp:148-169 | decoding the unpadded standard encoding of any byte sequence returns that sequence |
| `Bits.NatToBits` | src/zsutil.cpp:159-163 | a value below `2^w` has a `w`-bit big-endian form that reads back to itself |
| `Bits.BitsToNatAppend` | src/zsutil.cpp:159 | appending bits multiplies the value by a power of two and adds theirs, as `val << 6` does |
| `Bits.BitsToBytesAppend` | src/zsutil.cpp:163 | converting bits to bytes splits at any byte boundary |
| `Bits.BitsToBytesOfBytesToBits` | src/zsutil.cpp:162-165 | the bytes of a byte sequence's bits, followed by fewer than 8 more bits, are that byte sequence |
| `Hex.HexDigit` | src/zsutil.cpp:173-175 | the digit printed for a nibble has that nibble as its value |
| `Hex.HexDigitOfValue` | src/zsutil.cpp:173-175 | every lower-case hexadecimal digit is the one printed for its value |
| `Hex.ByteToHex` | src/zsutil.cpp:175 | two digits per byte, zero-padded: the first has the high nibble as its value, the second the low nibble |
| `Hex.ToHex` | src/zsutil.cpp:171-177 | the output is twice as long as the input, and every character is in `0-9a-f` |
| `Hex.ToHexPairs` | src/zsutil.cpp:174-175 | characters `2i` and `2i+1` are the two digits of byte `i` |
| `Hex.FromHexToHex` | src/zsutil.cpp:171-177 | reading the hex text back gives the bytes |
| `Hex.ToHexFromHex` | src/zsutil.cpp:171-177 | every even-length lower-case hex string is the hex text of the bytes it spells |
| `Hex.PairOfDigits` | src/zsutil.cpp:175 | two lower-case hex digits are the ones printed for the byte they spell |
| `Hex.ToHexFromHexStep` | src/zsutil.cpp:171-177 | the first pair of digits prints back when the rest does |
| `Hex.ToHexInjective` | src/zsutil.cpp:171-177 | different byte sequences never give the same text |
| `Hex.ToHexExample` | src/zsutil.cpp:175 | `[0, 255, 16]` gives `"00ff10"` |
| `Hex.BytesToHex` | src/zsutil.cpp:171-177 | the loop returns `ToHex` of the first `len` bytes of the buffer, or `""` when `len <= 0` |

## Left out

- `isfile`, `readMtime` and `getPerms` (src/zsutil.cpp:46-59, 123-133) only probe the filesystem through `std::ifstream` and `stat`, so they are not modelled.
- `resolveRedirections` (src/zsutil.cpp:109-121) is an HTTP HEAD request through cpr, so it is not modelled. Its own logic is that a status code in [300, 400) gives false; otherwise the final URL is stored and the result is true.
- Locales: `isspace`, `isalnum` and `tolower` are fixed to the "C" locale.
- `Base64.Value`: indexing `T[c]` with a negative `char` (any byte above 0x7F, where `char` is signed) is undefined behaviour in C++. The model treats every character outside the alphabet as invalid, so decoding stops there.
- `Base64.Base64Decode`: signed overflow of `val` is, strictly, undefined behaviour in C++. The model takes the two's-complement wrap-around that compilers produce.
- Strings are sequences of characters. The byte view of `std::string` is not modelled beyond `uint8` values for the decoder's output and the hex encoder's input.
- The `std::stringstream`, `std::getline`, `std::setw` and `std::setfill` machinery of `split` and `bytesToHex` is not modelled; the model builds the resulting sequence directly.
- `Hex.BytesToHex` requires the buffer to hold at least `len` bytes, which the raw pointer in the source silently assumes.

## Findings

| source | as written | input that shows it | evidently intended | confidence | as-written member | corrected member |
|---|---|---|---|---|---|---|
| src/zsutil.cpp:40-44 | `trim` returns `rtrim(s) && ltrim_result`, which is true only when both ends had whitespace | `"  a"`: ltrim removes two spaces, rtrim removes nothing, the string changes to `"a"`, and `trim` returns false. The same happens for `"   "` | the comment says "returns true if either modifies s", that is `\|\|`, which is true iff the string changed | not executed | `Trimming.Trim`, `Trimming.TrimReportMissesOneSidedChange` | `Trimming.TrimReportingAny` |
