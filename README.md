# SupoutRifDecoder in Dafny

A model of the decoder for MikroTik RouterOS `supout.rif` support files, with proofs about it.

A `supout.rif` container is a text file. Each section sits between the line
`--BEGIN ROUTEROS SUPOUT SECTION` and the line `--END ROUTEROS SUPOUT SECTION`. A section body
is written in a base64-like alphabet. The program does three things:

- It unpacks every 4 characters of a body into 3 bytes.
- It splits the bytes at the first zero byte into a name and a zlib payload.
- It inflates the payload and collects `name → text` in a dictionary. That dictionary is then
  saved.

The files:

| file | module | models |
|---|---|---|
| `Types.dfy` | `Types` | bytes, `Option`, `Result`, the exceptions, and the foreign calls (`Library`) |
| `Numerics.dfy` | `Numerics` | C# `int` arithmetic: wrap-around `<<`, arithmetic `>>`, truncating `%`, the unchecked `(byte)` cast, and `|` on two's complement |
| `Sequences.dfy` | `Sequences` | `Array.IndexOf`, LINQ `Take`/`Skip`, ordinal `StartsWith`, `+=` concatenation, and the block combinators the unpacker and its inverse are built from |
| `Dictionaries.dfy` | `Dictionaries` | the add-only `Dictionary<string, string>`, as its entries in insertion order |
| `SectionDecoder.dfy` | `SectionDecoder` | `DecodeAsync`: the symbol table `B64`, the 4→3 unpacking loop, the first-zero split, and inflate |
| `ContainerScanner.dfy` | `ContainerScanner` | the line loop of `Main` and its `catch` |
| `Arguments.dfy` | `Arguments` | `GetKeyValueArgs` |
| `Program.dfy` | `Program` | the control flow of `Main`, and the `--split` file name |

These are imperative in the source, and imperative here:

- The unpacking loop is the method `SectionDecoder.Unpack`.
- The line loop is the method `ContainerScanner.ScanContainer`.
- The argument loop is the method `Arguments.GetKeyValueArgs`.
- `Main` is the method `Program.Run`.

Each method is proved equal to a specification function, or states its result outright. The lemmas
are proved about those functions.

Behaviour modelled as the code has it, where a reading as plain base64 would differ:

- **The lookup `B64.IndexOf(c) % 64` uses C#'s truncating `%`.** A character outside the alphabet
  therefore gives -1, not 63.
  - `-1 << 6k`, OR-ed into the word, sets every bit from `6k` upward.
  - So a miss acts as 63 at its own position *and at every higher position* of the group
    (`MissActsAsAllOnes`).
- **The split of bytes that hold no zero byte does not fail.** `Array.IndexOf` gives -1, so the
  name is `Take(-1)`, which is empty, and the payload is `Skip(0)`, which is every byte (`Split`).
  All of those bytes then go to inflate, which can still fail.
- **The unpacking is not RFC 4648 base64 decoding.** The first character of a group is the least
  significant six bits, and the bytes come out least significant first.

## Model

| member | source | states |
|---|---|---|
| Numerics.TruncRem | SupoutRifDecoder/Program.cs:119-126 | C# `%` on `int`: for `a >= 0` the remainder is in `0..b-1`, for `a < 0` it is in `-(b-1)..0`. |
| Numerics.TruncRemCongruent | SupoutRifDecoder/Program.cs:119-126 | `a - a % b` is a multiple of `b`. With TruncRem's sign bounds this determines C#'s `%`. |
| Numerics.ShiftLeft | SupoutRifDecoder/Program.cs:119-121 | C# `x << s`: the low 32 bits of `x * 2^s`, always a 32-bit value. |
| Numerics.ShiftRight | SupoutRifDecoder/Program.cs:125-126 | Definition of C# `x >> s` on `int` as division rounded toward minus infinity; used by WordBytes. |
| Numerics.CastByte | SupoutRifDecoder/Program.cs:124-126 | The unchecked `(byte)x` keeps `x` modulo 256. |
| Numerics.CastTruncRem | SupoutRifDecoder/Program.cs:124-126 | `(byte)(x % 256)`, with the truncating `%`, is `x` mod 256, for negative `x` too. |
| Numerics.Or | SupoutRifDecoder/Program.cs:119-122 | Definition of C# `|` on the two's complements; its meaning is in OrZero, OrMinusOne and OrDisjoint. |
| Numerics.OrDisjoint | SupoutRifDecoder/Program.cs:119-122 | When one operand's bits all lie below bit `s` and the other's at or above it, `|` is addition. |
| Numerics.OrMinusOne | SupoutRifDecoder/Program.cs:119-122 | OR with -1 (all bits set) is -1. |
| Sequences.IndexOf | SupoutRifDecoder/Program.cs:129 | `Array.IndexOf` / `string.IndexOf`: -1 or a position holding the element. |
| Sequences.IndexOfFirst | SupoutRifDecoder/Program.cs:129 | `IndexOf` is -1 exactly when the element is absent, and otherwise no earlier position holds it. |
| Sequences.Take | SupoutRifDecoder/Program.cs:130 | LINQ `Take(n)`: nothing for `n <= 0`, the first `n` elements, all of them for `n >= length`. |
| Sequences.Skip | SupoutRifDecoder/Program.cs:131 | LINQ `Skip(n)`: everything for `n <= 0`, all but the first `n`, nothing for `n >= length`. |
| SectionDecoder.IndexMod64 | SupoutRifDecoder/Program.cs:119-122 | Definition of `B64.IndexOf(c) % 64` with the truncating `%`; DigitIsIndexMod64 states its values. |
| SectionDecoder.Word | SupoutRifDecoder/Program.cs:119-122 | Definition of `o`, the OR of the four shifted lookups written as the C# expression; WordValue states its value. |
| SectionDecoder.WordBytes | SupoutRifDecoder/Program.cs:124-126 | Definition of the three bytes `(byte)(o % 256)`, `(byte)((o >> 8) % 256)`, `(byte)((o >> 16) % 256)`; UnpackGroup states their value. |
| SectionDecoder.AlphabetText | SupoutRifDecoder/Program.cs:8 | The symbol table is the 65-character literal: `A`–`Z`, `a`–`z`, `0`–`9`, `+`, `/` and `=`. |
| SectionDecoder.DigitIsIndexMod64 | SupoutRifDecoder/Program.cs:119-122 | `B64.IndexOf(c) % 64` with truncating `%` is the symbol's index below 64, or 0 for `=`. It is -1 exactly for the characters outside the alphabet. |
| SectionDecoder.WordValue | SupoutRifDecoder/Program.cs:119-122 | The OR of the four shifted lookups is the group's effective 24-bit value. After a miss it is that value minus 2^24, with every bit from 24 upward set. It always fits in an Int32. |
| SectionDecoder.LowByte | SupoutRifDecoder/Program.cs:124-126 | The C# `(byte)(x % 256)` of each added byte. Its ensures carries the fact CastTruncRem proves, `x` mod 256 even for negative `x`, to the callers. |
| SectionDecoder.UnpackGroup | SupoutRifDecoder/Program.cs:119-126 | The three bytes the loop adds for a group are the bytes of the group's effective value, least significant first. |
| SectionDecoder.GroupFormula | SupoutRifDecoder/Program.cs:119-126 | For alphabet symbols, with `vk = Digit(g[k])` in 0..63 (the value `B64.IndexOf(g[k]) % 64`, by DigitIsIndexMod64), the bytes are those of `v0 + 64 v1 + 4096 v2 + 262144 v3`, least significant first. |
| SectionDecoder.PadActsAsA | SupoutRifDecoder/Program.cs:119-122 | `=` (index 64) decodes exactly like `A` (index 0), at any position. |
| SectionDecoder.MissActsAsAllOnes | SupoutRifDecoder/Program.cs:119-126 | The first character outside the alphabet, at position `k`, acts as `/` (63) at `k` and at every higher position, whatever stands there. |
| SectionDecoder.MissFirst | SupoutRifDecoder/Program.cs:119-126 | A miss at position 0 gives the bytes FF FF FF. |
| SectionDecoder.Unpacked | SupoutRifDecoder/Program.cs:116-127 | Unpacking succeeds exactly when the length is a multiple of 4. Otherwise it fails with IndexOutOfRange, from the unguarded `sec[i + 3]`. |
| SectionDecoder.UnpackedLength | SupoutRifDecoder/Program.cs:116-127 | A body of `4m` characters unpacks to exactly `3m` bytes. |
| SectionDecoder.UnpackedAt | SupoutRifDecoder/Program.cs:117-126 | For a body of `4m` characters there are `3m` bytes, and bytes `3j..3j+2` are the bytes of characters `4j..4j+3`, depending on nothing else. |
| SectionDecoder.Unpack | SupoutRifDecoder/Program.cs:116-127 | The loop (`i += 4`, three `Add`s per group) returns exactly `Unpacked(sec)`: the bytes or the exception. |
| SectionDecoder.GroupRoundTrip | SupoutRifDecoder/Program.cs:119-126 | Encoding three bytes into four data symbols, with the inverse bit layout, and decoding the group gives the bytes back. |
| SectionDecoder.GroupInverse | SupoutRifDecoder/Program.cs:119-126 | Decoding a group of four data symbols and encoding the bytes gives the group back. With GroupRoundTrip and EncodeGroupData, the group decode is a bijection between groups of four data symbols and byte triples. |
| SectionDecoder.EncodeGroupData | SupoutRifDecoder/Program.cs:119-126 | Encoding a byte triple gives four data symbols: never `=` and never a character outside the alphabet. |
| SectionDecoder.UnpackPack | SupoutRifDecoder/Program.cs:116-127 | Unpacking the packing of any byte sequence gives the bytes back, plus the zero bytes that fill the last group. |
| SectionDecoder.PackUnpack | SupoutRifDecoder/Program.cs:116-127 | A body of data symbols whose length is a multiple of 4 unpacks, and `Pack` of its bytes (which need no padding) is the body again. |
| SectionDecoder.Split | SupoutRifDecoder/Program.cs:129-131 | If there is a zero byte: the bytes are name + 0 + payload, and the name has no zero, so the split is at the first zero and later zeros stay in the payload. If there is none: the name is empty and the payload is every byte. |
| SectionDecoder.SplitJoin | SupoutRifDecoder/Program.cs:129-131 | A name without a zero byte, a zero and any payload split back into exactly that name and that payload. |
| SectionDecoder.Inflated | SupoutRifDecoder/Program.cs:133-137 | Inflating succeeds exactly when the zlib stream is valid. Otherwise it fails with InvalidData. |
| SectionDecoder.Decoded | SupoutRifDecoder/Program.cs:114-142 | A body whose length is not a multiple of 4 throws IndexOutOfRange. Any other body decodes exactly when the payload after the first zero inflates. |
| SectionDecoder.DecodeSection | SupoutRifDecoder/Program.cs:114-142 | `DecodeAsync` returns exactly what `Decoded` describes. |
| SectionDecoder.PackData | SupoutRifDecoder/Program.cs:119-126 | A packed body holds data symbols only, never `=`, `-` or a character outside the alphabet. |
| SectionDecoder.DecodedRoundTrip | SupoutRifDecoder/Program.cs:114-142 | A body packed from name + 0 + payload decodes to the name and to the text the payload inflates to. |
| Dictionaries.ContainsKey | SupoutRifDecoder/Program.cs:19 | Definition of `ContainsKey`: some entry has the key. Add and Lookup are stated in its terms. |
| Dictionaries.Add | SupoutRifDecoder/Program.cs:47 | `Dictionary.Add` throws DuplicateKey exactly when the key is present. Otherwise it appends the entry, and distinct keys stay distinct. |
| Dictionaries.Lookup | SupoutRifDecoder/Program.cs:25 | The indexer finds a value exactly when the key is present. |
| Dictionaries.LookupAt | SupoutRifDecoder/Program.cs:25 | With distinct keys, looking up an entry's key gives that entry's value. |
| Arguments.IsFlag | SupoutRifDecoder/Program.cs:69 | Definition of `StartsWith("--")`, as an ordinal prefix test. |
| Arguments.ValueAfter | SupoutRifDecoder/Program.cs:74-78 | Definition of the value of the flag at `i`: `args[i+1]` when `args.Length >= i + 2` and it is not a flag, `""` otherwise. |
| Arguments.FlagEntries | SupoutRifDecoder/Program.cs:67-80 | Definition of the entries the flags among the first `n` arguments give, in order; the lemmas below state what they are. |
| Arguments.FlagEntriesKeys | SupoutRifDecoder/Program.cs:67-80 | The keys are exactly the arguments that start with `--`. An argument that is not a flag is never a key. |
| Arguments.FlagEntriesFrom | SupoutRifDecoder/Program.cs:67-80 | Every entry is `(args[i], value)` for a flag `args[i]`: the value is `args[i+1]` when it exists and is not a flag, and `""` otherwise. |
| Arguments.FlagValue | SupoutRifDecoder/Program.cs:74-80 | With no repeated flag, every flag maps to the value it takes. |
| Arguments.FirstRepeatUnique | SupoutRifDecoder/Program.cs:80 | Only one flag is the first to repeat an earlier one, so the key of the exception is determined. |
| Arguments.GetKeyValueArgs | SupoutRifDecoder/Program.cs:63-84 | It succeeds exactly when no flag repeats, and then returns one entry per flag, in order. When a flag repeats, `Add` throws DuplicateKey for the first flag that repeats an earlier one. |
| ContainerScanner.Step | SupoutRifDecoder/Program.cs:37-50 | Definition of one pass of the loop body: a begin marker empties the body; an end marker decodes the body, adds the section and then appends the marker; any other line is appended. |
| ContainerScanner.Scanned | SupoutRifDecoder/Program.cs:35-51 | Definition of the loop's state after the lines, or the first exception; FailureStays and ScannerMeaning state its properties. |
| ContainerScanner.Sections | SupoutRifDecoder/Program.cs:29-57 | Definition of what the `catch` sees: the dictionary, or the exception. ScanContainer is proved equal to it. |
| ContainerScanner.FailureStays | SupoutRifDecoder/Program.cs:29-57 | Once the loop body throws, the later lines change nothing: the `catch` gets that exception. |
| ContainerScanner.ScanContainer | SupoutRifDecoder/Program.cs:33-51 | The line loop returns exactly `Sections(lines)`: the dictionary, or the first exception. |
| ContainerScanner.ScannerMeaning | SupoutRifDecoder/Program.cs:33-51 | The loop's body variable is always the concatenation, with no separator, of the lines since the last begin marker. Its dictionary is what decoding the body at each end marker, in order, gives. |
| ContainerScanner.SinceBeginAppend | SupoutRifDecoder/Program.cs:38-50 | Lines without a begin marker are appended to the body, with no separator. |
| ContainerScanner.EndTextCarried | SupoutRifDecoder/Program.cs:44-50 | After an end marker with no begin marker since, the body holds the earlier body, then the end marker's text, then the later lines. |
| ContainerScanner.EndBodiesCount | SupoutRifDecoder/Program.cs:44-48 | Exactly one body is decoded per end-marker line. |
| ContainerScanner.EndBodiesAt | SupoutRifDecoder/Program.cs:44-48 | The end marker that `k` end markers precede decodes the `k`-th body. That body is the concatenation since the last begin marker before it. |
| ContainerScanner.TrailingIgnored | SupoutRifDecoder/Program.cs:35-51 | Lines after the last end marker never change the outcome. |
| ContainerScanner.CollectSuccess | SupoutRifDecoder/Program.cs:46-47 | On success there is one section per body, each the decoding of its body, and the names are distinct. |
| ContainerScanner.CollectDuplicate | SupoutRifDecoder/Program.cs:46-47 | Two bodies that decode to the same name make the run fail, whatever the other bodies are. |
| ContainerScanner.CollectOf | SupoutRifDecoder/Program.cs:46-47 | If every body decodes and the names are distinct, the scan succeeds with those sections. |
| ContainerScanner.CollectFailure | SupoutRifDecoder/Program.cs:46-47 | A failure is the error of the first body that either does not decode or decodes to a name already added. |
| ContainerScanner.ExampleBodies | SupoutRifDecoder/Program.cs:38-50 | For `BEGIN a b END c END`, the bodies decoded are `ab` and then `ab` + END text + `c`. |
| ContainerScanner.NotMarker | SupoutRifDecoder/Program.cs:38-44 | A line of data symbols is neither marker, since both start with `-`. |
| ContainerScanner.WrapBodies | SupoutRifDecoder/Program.cs:35-50 | For bodies that are not marker lines, each written between a begin and an end marker, the scanner decodes exactly those bodies, in order. |
| ContainerScanner.ContainerRoundTrip | SupoutRifDecoder/Program.cs:33-56 | Packing sections (names without a zero byte, with distinct decoded names, and payloads that inflate), framing each between the markers, and scanning the container gives exactly those sections, in order: each name and the text its payload inflates to. |
| ContainerScanner.TwoSections | SupoutRifDecoder/Program.cs:33-56 | The six-line container with two sections of distinct names gives exactly those two entries, in order. |
| Program.AfterArgs | SupoutRifDecoder/Program.cs:19-59 | Definition of `Main` after `GetKeyValueArgs`: help without `--path`, an unreadable file or a failed scan reported, otherwise the sections saved. HelpWithoutPath, ReadsPathValue, DuplicateSavesNothing and SavedSections state its properties. |
| Program.Run | SupoutRifDecoder/Program.cs:10-61 | No arguments shows help. A repeated flag crashes with DuplicateKey of the first repeat, which is not caught. Otherwise the run is `AfterArgs`: help without `--path`, an unreadable file or a failed scan reported, or the sections saved. |
| Program.HelpWithoutPath | SupoutRifDecoder/Program.cs:18-23 | When no flag repeats (so `GetKeyValueArgs` returns), a run without a `--path` argument only shows the help text. |
| Program.ReadsPathValue | SupoutRifDecoder/Program.cs:25-31 | The file opened is the value of `--path`. If it cannot be read, that is reported. |
| Program.DuplicateSavesNothing | SupoutRifDecoder/Program.cs:44-57 | Two sections with the same name make the run report the error, and nothing is saved. |
| Program.SavedSections | SupoutRifDecoder/Program.cs:29-59 | What is saved has one section per end marker, each decoded from its body, in end-marker order, with distinct names. |
| Program.WithoutDots | SupoutRifDecoder/Program.cs:101 | Definition of `Replace(".", "")`, character by character. Its meaning is in the four lemmas below. |
| Program.WithoutDotsAppend | SupoutRifDecoder/Program.cs:101 | Removing dots distributes over concatenation. |
| Program.WithoutDotsChar | SupoutRifDecoder/Program.cs:101 | A single dot becomes empty, and any other single character stays. With WithoutDotsAppend this fixes the result: the other characters, in order, with their repetitions. |
| Program.WithoutDotsNoDot | SupoutRifDecoder/Program.cs:101 | A name without dots is unchanged. |
| Program.WithoutDotsKeeps | SupoutRifDecoder/Program.cs:101 | No dot is left, the length drops by the number of dots, and every other character still occurs. |
| Program.SectionFileName | SupoutRifDecoder/Program.cs:101 | A section's file name is `WithoutDots(name)` followed by `.txt`: the part before `.txt` has no dot and is one character shorter per dot. |

## Left out

- File and console I/O:
  - The container file is a parameter `files: string -> Option<seq<string>>`, which maps a path to
    its lines with the terminators stripped. `None` stands for any exception from `File.OpenRead`
    or `ReadLineAsync`.
  - Read failures are moved ahead of decoding. In the source, reading and decoding alternate
    (Program.cs:35-47), so a read error that comes after an end marker whose body fails to decode
    is reported there as the decode error. The model reports `FileUnreadable` instead.
  - The help text and `Console.ReadKey` (Program.cs:86-91) become the outcome `Help`.
  - The error message of Program.cs:55 ("Error opening RIF file") becomes the outcome `Reported`.
  - The message of Program.cs:60 ("Saved to …") comes after `SaveAsync`, and it is dropped along
    with it: the outcome `Saved` stands for both.
- `SaveAsync` (Program.cs:93-112) does I/O:
  - It creates a directory and writes files.
  - Its folder name includes the time from `DateTime.UtcNow`, which is nondeterministic.
  - `Path.GetDirectoryName` is a library call.

  The model stops at the outcome `Saved(path, sections, split)`. It keeps only the per-section
  file name of line 101. The combined-output join of line 108 is not modelled, because it is
  plain string formatting.
- zlib inflate (`ZLibStream`) and UTF-8 decoding (`Encoding.UTF8.GetString`) are foreign calls.
  They are the fields `inflate` (which may fail) and `utf8` of `Library`.
- SectionDecoder.DecodedRoundTrip: it assumes that `inflate` accepts the payload followed by up to
  two zero bytes of padding. A zlib stream ignores bytes after its end, but inflate is not modelled.
- ContainerScanner.ContainerRoundTrip: inherits the same assumption. Each payload, followed by
  the zero bytes of its last group, must inflate.
- async/await: everything runs sequentially.
- Characters are Unicode scalar values here, while C#'s `sec.Length` and `sec[i]`
  (Program.cs:117-122) count UTF-16 code units. A body character outside the BMP counts once here
  and twice in C#, so for such a body the group boundaries, the length test and the
  IndexOutOfRange case can differ. Real containers are ASCII.
- The `List<byte>` capacity hint `sec.Length * 3 / 12` (Program.cs:116) is not modelled. It is
  evaluated in unchecked 32-bit `int`: for a body of 715,827,883 or more characters,
  `sec.Length * 3` wraps negative, and the constructor throws ArgumentOutOfRangeException. The
  `catch` then reports it and nothing is saved. The model does not reproduce this and decodes such
  a body. Below that length the hint has no effect on behaviour.
- Arguments.IsFlag: `string.StartsWith("--")` without a `StringComparison` is culture-sensitive in
  .NET. It is modelled as an ordinal prefix test.
- Exceptions are kept by kind only: IndexOutOfRange, InvalidData, DuplicateKey and FileUnreadable.
  The message `ex.Message` is not modelled.
- The dictionary's enumeration order is taken to be insertion order. .NET guarantees this for a
  dictionary nothing was removed from, but it is not a documented contract.
- The encoder (`Symbols`, `EncodeGroup`, `Pack`) is not part of the program. It is the inverse bit
  layout, written to state the round trips.
