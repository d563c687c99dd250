# Conversion tools: a Dafny model

This project models the encoders and decoders of nine small C filters of the
conversion-tools repository:

- `ascii85`: Adobe-style base-85 with the `z` and `y` shortcuts.
- `base85`: Z85, the ZeroMQ base-85 alphabet of ZeroMQ RFC 32. This includes its argument parser.
- `binary`: bytes as eight '0'/'1' characters.
- `dna`: two bits per nucleotide under a configurable mapping, with an optional complement.
- `factoradic`: 64-bit numbers in the factorial number system.
- `morse`: International Morse code.
- `braille`: six-dot Grade 1 cells as Unicode braille characters or as 'o'/'.' text.
- `leet`: leetspeak at three levels.
- `dancing_man`: stick-figure letters in full and compact form.

Each tool reads a stream and writes a stream. The model represents each
stream as a sequence: bytes are `seq<byte>` and text is `string`.

Each stream loop is a recursive fold over the input. The fold carries the
same state as the C loop: column counters, group buffers, the number and
capital modes, and line buffers. Every C branch is a branch of the fold.
Results that C reports on stderr are kept as data. Examples are an error
status that stops ascii85 or base85, the "incomplete byte" flag of binary,
and the zero-padding flag of dna. Integer widths are written out where the
C code depends on them:

- the 32-bit accumulator of the Z85 decoder;
- the `unsigned char` shift of the binary decoder;
- the 64-bit `unsigned long long` arithmetic of factoradic.

Seven of the decoders have a bug. For each one the model keeps two versions
of the decoding step, chosen by a `fixed: bool` parameter:

- `fixed == false` is the code as written. Lemmas named `...AsWritten` exhibit its failures on concrete inputs.
- `fixed == true` is the evidently intended behaviour. The round-trip lemmas are proved for it.

When the two coincide on some inputs, a lemma proves that as well.

For ascii85, `init` is the previous contents of the decoder's uninitialised
4-byte output array. It is a free parameter, so every statement about it
holds for any contents.

Module map:

| file | module |
|---|---|
| common.dfy | `CType` (ctype.h predicates), `LineWrap` (the shared column-wrapping writer), `Seqs`, `Optional`, `Decimal`, `CStdlib` (`strtol`/`atoi` prefix parsing) |
| radix.dfy | `Radix`: base-85 and base-256 digits, big-endian packing |
| strtok.dfy | `CStrings`: `strtok` tokens, delimiter fields, NUL-terminated strings |
| ascii85.dfy | `Ascii85` |
| base85.dfy, base85_args.dfy | `Z85`, `Z85Args` |
| binary.dfy | `Binary` |
| dna.dfy | `Dna` |
| factoradic.dfy | `Factoradic` |
| morse.dfy | `Morse` |
| braille.dfy | `Braille` |
| leet.dfy | `Leet` |
| dancing_man.dfy | `DancingMan` |

## Model

| member | source | states |
|---|---|---|
| LineWrap.PutAll | binary.c:27-38 | The column-wrapping writer loses no symbol: removing its newlines gives back the input. With width 0 it writes the input unchanged. With a positive width the column stays below the width. |
| LineWrap.PutAllOpenLine | binary.c:41-44 | With a positive width, the column is non-zero exactly when the text written so far does not end in a newline. This is the condition for the final newline. |
| LineWrap.PutAllLayout | ascii85.c:123-132 | The wrapped text is the symbols broken into lines of exactly `width` symbols, each followed by a newline. |
| LineWrap.PutAllAppend | dna.c:88-107 | Writing a + b continues from the column reached after a, so a stream can be written chunk by chunk. |
| LineWrap.UnwrapAppend | dna.c:121-125 | Dropping newlines distributes over concatenation. |
| Decimal.ValueShow | factoradic.c:156 | Printing a number in decimal (`%llu`) and reading the digits back gives the number. |
| CStdlib.Strtol | base85.c:80 | The conversion stops after its last digit. It never ends inside the leading blanks or the sign. |
| CStdlib.StrtolDigits | base85.c:80 | A whole digit string is converted to its decimal value, and the end pointer is left past its last digit. |
| CStdlib.ToInt | leet.c:184 | Converting a long to `int` keeps the low 32 bits. The result is in the int range, and a value already in that range is unchanged. |
| CStdlib.Atoi | leet.c:184 | `atoi` gives an int. A value in the int range is the `strtol` value. A value above the range of a long reads as -1, and one below it as 0, the low 32 bits of LONG_MIN. Any other value keeps its low 32 bits. |
| Ascii85.AlphabetIsRange | ascii85.c:27 | The 85 symbols are the consecutive characters from '!' (code 33) on. |
| Ascii85.DecodeChar | ascii85.c:30-35 | The value is non-negative exactly for '!' to 'u'. It lies in -1 to 84. |
| Ascii85.DecodeAccepted | ascii85.c:27-35 | Every accepted character is the alphabet symbol of its value. |
| Ascii85.DecodeSymbol | ascii85.c:27-35 | Every alphabet symbol decodes to its index. |
| Ascii85.EncodeGroup | ascii85.c:38-69 | A group is "z" exactly when z compression is on and the group is four zero bytes. It is "y" exactly when y compression is on and the group is four spaces. Otherwise it is \|g\|+1 alphabet symbols. |
| Ascii85.SpecialGroups | ascii85.c:42-59 | A full group packs to 0 exactly when it is four zeros, and to 0x20202020 exactly when it is four spaces. |
| Ascii85.DecodeGroup | ascii85.c:72-110 | "z" gives four zeros and "y" four spaces. A group with a non-symbol gives -1 and leaves the buffer untouched. n+1 symbols give n bytes. As written, the n bytes go to the END of the 4-byte buffer and the bytes before them keep their old contents. Corrected, the buffer is the big-endian value. |
| Ascii85.GroupOfFive | ascii85.c:90-110 | Five symbols decode to the four big-endian bytes of their base-85 value, in both versions. |
| Ascii85.GroupsNoNewline | ascii85.c:119-121 | The encoded groups hold no newline, so every newline in the output comes from wrapping. |
| Ascii85.EncodeRunIsPutAll | ascii85.c:113-133 | The encoding loop writes the concatenated group texts through the column-wrapping writer. |
| Ascii85.EncodeLayout | ascii85.c:113-139 | Without wrapping, the output is the groups followed by one newline. With wrapping, it is the groups in lines of `wrap` symbols, plus a final newline exactly when the last line is unfinished. |
| Ascii85.StepChar | ascii85.c:148-187 | One decoder step keeps the buffered group shorter than five symbols. |
| Ascii85.RunUnwrap | ascii85.c:149-152 | The decoder reads wrapped and unwrapped text alike. |
| Ascii85.TokenInsideGroup | ascii85.c:155-159 | A 'z' or 'y' inside a group stops decoding with the mid-group error and writes nothing more. |
| Ascii85.RunSymbols | ascii85.c:168-172 | Symbols that do not complete a group are only buffered. |
| Ascii85.LastSymbol | ascii85.c:173-182 | The fifth symbol writes the group's four bytes and empties the buffer. |
| Ascii85.FullGroup | ascii85.c:113-182 | An encoded full group (symbols, "z" or "y") decodes to its four bytes, whatever the buffer held before. |
| Ascii85.WholeGroups | ascii85.c:113-182 | A sequence of full groups decodes to its bytes. The buffer is left holding the last group. |
| Ascii85.RoundTrip | ascii85.c:113-200 | As written, any input whose length is a multiple of 4 decodes back to itself. This holds for every wrap width and z/y setting and any prior buffer contents. |
| Ascii85.RoundTripText | ascii85.c:136-152 | Decoding the encoder's output is decoding the bare group text: the wrapping newlines and the final newline are skipped. |
| Ascii85.PartialGroup | ascii85.c:97-109 | Corrected, a trailing group of 1 to 3 bytes decodes to those bytes. As written, a 1-byte group decodes to the buffer's stale first byte instead. |
| Ascii85.FinishPartial | ascii85.c:189-199 | The end-of-input branch decodes the leftover 2 to 4 symbols, with the same two outcomes. |
| Ascii85.RoundTripFixed | ascii85.c:113-200 | With the corrected partial group, every byte sequence round-trips, for every wrap width and z/y setting. |
| Ascii85.TrailingByteAsWritten | ascii85.c:103-107 | As written, one byte after whole groups decodes to the first byte of the buffer's previous contents, not to that byte. |
| Ascii85.TrailingByteExample | ascii85.c:103-107 | [0,0,0,0,1], encoded with the default width 76, decodes as written to [0,0,0,0,0]. |
| Z85.AlphabetShape | base85.c:18-19 | The alphabet is 0-9, a-z, A-Z and then 23 punctuation marks, in the order of ZeroMQ RFC 32. |
| Z85.AlphabetNoSpace | base85.c:18-19 | No symbol is a blank and every symbol is printable ASCII, so skipping blanks never drops a symbol. |
| Z85.TableDecimal | base85.c:22-39 | The table as written maps '0'-'9' to 0-9. |
| Z85.TableUpper | base85.c:22-39 | The table as written maps 'A'-'Z' to 10-35, the values of 'a'-'z' in the alphabet. |
| Z85.TableLower | base85.c:22-39 | The table as written maps 'a'-'z' to 36-61. |
| Z85.TableMismatch | base85.c:18-39 | The table as written does not invert the alphabet. The symbol 'a' (value 10) reads as 36. '>' and '}' are refused as invalid. |
| Z85.TableMarksSwapped | base85.c:18-39 | In the table as written, seven marks read as the value of another symbol: '.' 74 (is 62), '-' 69 (63), '+' 71 (65), '^' 79 (67), '/' 67 (69), '?' 65 (71), '{' 62 (79). |
| Z85.TableExtraSymbols | base85.c:18-39 | The table as written accepts '_' as 80 and '\|' as 63, though neither is in the alphabet. |
| Z85.FixedInverts | base85.c:18-39 | The corrected table maps every symbol back to its index, and every accepted character is a symbol. |
| Z85.EncodeGroup | base85.c:176-194 | n bytes (1 to 4) become n+1 symbols, none of them a newline. |
| Z85.EncodeRunIsPutAll | base85.c:195-211 | The encoding loop writes the group texts through the column-wrapping writer. |
| Z85.EncodeLayout | base85.c:167-220 | Without wrapping, the output is the bare group text with no newline. With wrapping, it is lines of `wrap` symbols and a final newline exactly when the last line is unfinished. |
| Z85.Acc | base85.c:254 | One accumulation step stays below 2^32, as `uint32_t` arithmetic does. |
| Z85.AccAllValue | base85.c:254 | Accumulating digits from 0 gives their base-85 value modulo 2^32. |
| Z85.StepChar | base85.c:237-273 | A decoder step keeps the accumulator a 32-bit value and the count below five. |
| Z85.RunUnwrap | base85.c:239-241 | The decoder reads wrapped and unwrapped text alike. |
| Z85.FullGroup | base85.c:253-273 | With a table that inverts the alphabet, an encoded 4-byte group decodes to its bytes. |
| Z85.PartialGroup | base85.c:277-301 | With the corrected trailer, n+1 symbols padded with 84 decode to the n original bytes. |
| Z85.GroupsRoundTrip | base85.c:161-301 | With an inverting table and the corrected trailer, the group text of any byte sequence decodes to it, with or without ignore-garbage. |
| Z85.RoundTripFixed | base85.c:161-301 | With the corrected table and trailer, every byte sequence round-trips, for every wrap width and ignore-garbage setting. |
| Z85.TableRoundTripFails | base85.c:22-39 | As written, [0,0,0,10] encodes to "0000a", which decodes to [0,0,0,36]. |
| Z85.DecodeTenAsWritten | base85.c:231-274 | The decoder as written reads "0000a" as [0,0,0,36]. |
| Z85.TrailerLengthAsWritten | base85.c:290-297 | As written, the single byte [0] encodes to "00", which decodes to four bytes [0,9,94,236] instead of one. |
| Z85.FinishZeroZero | base85.c:277-301 | A trailing group of two symbols as written yields four bytes. |
| Z85.GroupValueWraps | base85.c:254-263 | "#####" (five 84s) overflows 32 bits. It decodes to the bytes of 85^5 - 1 - 2^32 in both versions. |
| Z85Args.ParseWrap | base85.c:75-88 | An accepted wrap value is at most 1000000. An accepted non-empty string ends in a digit. The empty string is accepted as 0 because `strtol` consumes nothing and stops at the NUL. |
| Z85Args.ParseWrapDegenerate | base85.c:75-88 | "" is 0, while " ", "+" and "-" are refused. |
| Z85Args.ParseWrapDigits | base85.c:75-88 | A digit string is accepted exactly when its value is at most 1000000, and then gives that value. |
| Z85Args.ParseWrapShow | base85.c:75-88 | Printing a width and parsing it back gives the width when it is in range. |
| Z85Args.ParseWrapPlus | base85.c:80 | A leading '+' is accepted and changes nothing. |
| Z85Args.ParseWrapBlank | base85.c:80 | A leading blank is skipped. |
| Z85Args.ParseWrapMinus | base85.c:80-82 | A minus sign is refused unless the value is zero. |
| Z85Args.ParseWrapTrailing | base85.c:82 | A trailing non-digit makes the value invalid. |
| Z85Args.Classify | base85.c:96-143 | An argument is an operand exactly when it is shorter than two characters or does not start with '-'. An unknown option is reported without its dash. |
| Z85Args.ClassifyWrap | base85.c:102-123 | "-w" and "--wrap" take the next argument. "-wN" and "--wrap=N" carry the value inline. |
| Z85Args.ParseFrom | base85.c:95-147 | A successful parse leaves a wrap width of at most 1000000. |
| Z85Args.ParseArguments | base85.c:90-147 | From the defaults, a successful parse gives a wrap width of at most 1000000. |
| Z85Args.ParseAppend | base85.c:95-144 | Parsing a + b continues from the options reached after a. An error in a, other than a missing wrap value, ends the parse. |
| Z85Args.LastWrapWins | base85.c:102-123 | Any of the three wrap spellings at the end sets the width to its value. A later wrap option overrides an earlier one. |
| Z85Args.WrapMissing | base85.c:102-106 | "-w" or "--wrap" as the last argument fails with the missing-argument error. |
| Z85Args.WrapInvalid | base85.c:107-122 | An invalid value in any spelling fails the parse. |
| Z85Args.OperandRules | base85.c:137-143 | The first operand is the input file and a second one is an error. |
| Z85Args.DashIsOperand | base85.c:132-143 | "-" alone is an operand, the input file name. |
| Z85Args.BadOptionRule | base85.c:132-136 | Any other dash-word fails with an invalid-option error naming it. |
| Binary.BitsOf | binary.c:29-30 | n bit characters, each '0' or '1'. |
| Binary.BitsOfValue | binary.c:29-30 | Reading back the bits written for v < 2^n gives v. |
| Binary.ByteBitsValue | binary.c:27-30 | The eight characters written for a byte, read most significant bit first, give the byte. |
| Binary.EncodeRunIsPutAll | binary.c:27-39 | The encoding loop writes the bit text through the column-wrapping writer. |
| Binary.EncodeLayout | binary.c:23-45 | Without wrapping, the output is the bit text and a newline. With wrapping, it is lines of `wrap` bits plus a final newline exactly when the last line is unfinished. |
| Binary.RunFilter | binary.c:55-57 | The decoder reads only '0' and '1' and ignores every other character. |
| Binary.RunAppend | binary.c:53-69 | Decoding a + b continues from the state reached after a. |
| Binary.PartialByte | binary.c:59-62 | Fewer than eight bits are only accumulated, to their binary value, and write nothing. |
| Binary.OneByte | binary.c:59-68 | The eight bits of a byte decode to that byte and reset the state. |
| Binary.EightBits | binary.c:60-68 | Any eight bits write the byte of their value. The shift into `unsigned char` loses nothing. |
| Binary.DecodeBitsText | binary.c:48-75 | The bit text of any byte sequence decodes to it, with no incomplete byte. |
| Binary.RoundTrip | binary.c:23-75 | Every byte sequence round-trips for every wrap width, with no incomplete-byte warning. |
| Binary.DecodeCounts | binary.c:53-74 | The decoder writes one byte per eight bits read. It warns of an incomplete byte exactly when the number of bits is not a multiple of eight. |
| Dna.Complement | dna.c:36-44 | A nucleotide, in either case, gives its Watson-Crick partner: A and T pair, as do G and C, checked against a separate list of base pairs. Any other character is returned unchanged. |
| Dna.ComplementInvolution | dna.c:36-44 | Complementing twice gives the upper-cased nucleotide back, and complementing never fixes one. |
| Dna.ValidMappingIff | dna.c:63-81 | A mapping is accepted exactly when it is four distinct nucleotides, case-insensitively. |
| Dna.DefaultMappingValid | dna.c:194 | The default mapping "atgc" is valid. |
| Dna.NucleotideToBits | dna.c:52-60 | The result lies in -1 to 3. |
| Dna.BitsRoundTrip | dna.c:47-60 | Under a valid mapping, the nucleotide written for two bits reads back as those bits. |
| Dna.Symbol | dna.c:121-136 | A blank is skipped, and every other character reads as -1 to 3. |
| Dna.SymbolNucleotide | dna.c:90-136 | Under a valid mapping and the same complement setting, every nucleotide the encoder writes reads back as its two bits. |
| Dna.NucleotidesIndex | dna.c:88-96 | The i-th nucleotide of a byte encodes bit pair i, most significant pair first. |
| Dna.TextIsLetters | dna.c:92-96 | Under a valid mapping, the encoder writes only A, T, G and C. |
| Dna.EncodeRunIsPutAll | dna.c:88-107 | The encoding loop writes the nucleotide text through the column-wrapping writer. |
| Dna.EncodeLayout | dna.c:84-113 | Without wrapping, the output is the nucleotides and a newline. With wrapping, it is lines of `wrap` nucleotides plus a final newline exactly when the last line is unfinished. |
| Dna.KeptUnwrap | dna.c:123-125 | Newlines contribute nothing to what the decoder packs. |
| Dna.LoopKept | dna.c:132-136 | Characters that are not nucleotides are skipped without changing the state. |
| Dna.PartialByte | dna.c:138-141 | Fewer than four nucleotides are accumulated to their base-4 value and write nothing. |
| Dna.FourPairs | dna.c:138-147 | Four nucleotides write the byte of their base-4 value and reset the state. |
| Dna.EncodedPairs | dna.c:84-136 | The decoder sees exactly the encoder's bit pairs, whatever the wrap width. |
| Dna.RoundTrip | dna.c:84-157 | Under a valid mapping, every byte sequence round-trips for every wrap width and complement setting, without padding. |
| Dna.TrailingPairs | dna.c:151-156 | 1 to 3 trailing nucleotides write one byte: their value shifted up to fill eight bits. The padding warning is raised. |
| Dna.FinishValue | dna.c:151-156 | The trailing byte is v * 4^(4-n) for n leftover nucleotides of value v. |
| Dna.LoopCounts | dna.c:138-147 | The loop writes one byte per four nucleotides and keeps the remainder. |
| Dna.DecodeLength | dna.c:116-157 | The output has ceil(n/4) bytes for n nucleotides read. It is padded exactly when n is not a multiple of 4. |
| Factoradic.FactorialCases | factoradic.c:36-46 | `factorial` is 1 for n ≤ 1, the exact factorial for 1 to 20, and 0 (the overflow answer) for n ≥ 21. |
| Factoradic.FactTwenty | factoradic.c:11 | 20! fits in 64 bits and 21! does not, so 20 positions suffice. |
| Factoradic.MaxPos | factoradic.c:58-62 | The top position lies in 1 to 20. |
| Factoradic.MaxPosMeaning | factoradic.c:58-62 | For num ≥ 1 the top position k satisfies k! ≤ num < (k+1)!. |
| Factoradic.Extract | factoradic.c:73-91 | The digit loop gives pos digits, the i-th at most pos - i. |
| Factoradic.ExtractMeaning | factoradic.c:73-91 | Below (pos+1)! the loop always succeeds: the digit-too-large guard never fires, and the weighted digit sum is the number. |
| Factoradic.DigitText | factoradic.c:83 | One character per digit. |
| Factoradic.ToFactoradicMeaning | factoradic.c:48-106 | Every 64-bit number ≥ 1 converts to its factoradic form: no leading zero, each digit within its position's bound, weighted sum equal to the number, at most 20 digits. |
| Factoradic.CheckedMeaning | factoradic.c:108-163 | Corrected, a well-formed digit string gives its factoradic value when that fits in 64 bits, and the too-large error otherwise. |
| Factoradic.AcceptsWellFormed | factoradic.c:117-133 | The decoder accepts only strings of digits, each at most its position. |
| Factoradic.AsWrittenAgrees | factoradic.c:108-163 | As written, strings of at most 20 digits whose value fits in 64 bits decode correctly. |
| Factoradic.DecodeFromAgrees | factoradic.c:117-150 | Below 21 positions and without overflow, the decoder as written and the corrected one agree. |
| Factoradic.RoundTrip | factoradic.c:48-163 | Every 64-bit number ≥ 1 converts, and when its output is all decimal digits it converts back to the number, in both versions. |
| Factoradic.RoundTripZero | factoradic.c:49-55 | 0 prints as "0" and reads back as 0. |
| Factoradic.NineAtTwentyAsWritten | factoradic.c:135-144 | As written, "9" followed by 19 zeros (9·20!, past 2^64) is accepted as 3449373999880208384. Corrected, it gives the too-large error. |
| Factoradic.PositionTwentyOneAsWritten | factoradic.c:135-144 | As written, "1" followed by 20 zeros is accepted as 0, because `factorial(21)` returns 0. Corrected, it gives the too-large error. |
| Factoradic.UsageExample | factoradic.c:48-106 | 463 converts to "34101", not the "34201" the help text at factoradic.c:22 gives. |
| Factoradic.UsageExampleBack | factoradic.c:108-163 | "34201", the help text's example, converts to 469, not 463: the example in the help text is wrong and the code is right. |
| Factoradic.CleanMeaning | factoradic.c:170-183 | Line cleaning keeps the digits before the first '.' or ',', at most 255 of them. |
| Factoradic.Strtoull | factoradic.c:195 | The cleaned digits convert to at most 2^64 - 1, saturating as `strtoull` does. |
| Factoradic.ProcessLineConverts | factoradic.c:165-203 | In the converting direction, a line prints nothing exactly when it has no digit before the first '.' or ','. Otherwise it prints a factoradic number and is never rejected. |
| Morse.TableKeys | morse.c:14-30 | Every table entry's code leads back to that entry's index. |
| Morse.CodesDistinct | morse.c:14-30 | No two entries share a code. |
| Morse.CharToMorseMeaning | morse.c:52-60 | A code is found exactly when some entry has the upper-cased character, and it is that entry's code. |
| Morse.MorseToCharMeaning | morse.c:63-70 | An unknown code gives '?'. Any other result is the character of an entry with that code. |
| Morse.SupportedIff | morse.c:14-60 | The characters with a code are the letters (either case), the digits and the listed marks. |
| Morse.CharRoundTrip | morse.c:52-70 | The code of a supported character reads back as the upper-cased character. |
| Morse.Encode | morse.c:73-112 | The output always ends in a newline. |
| Morse.NormalizeChars | morse.c:73-109 | The text the encoder represents holds only newlines and supported non-lower-case characters. |
| Morse.NormalizeSpaces | morse.c:88-94 | Spaces never double up and never open a word. |
| Morse.EncodeRender | morse.c:73-112 | The encoder writes exactly the rendering of the normalised text: codes joined by the character separator, words by the word separator, newlines kept. |
| Morse.DecodeChar | morse.c:120-150 | A decoder step keeps the buffer within its nine symbols. |
| Morse.Decode | morse.c:115-161 | The output always ends in a newline. |
| Morse.DecodeIgnores | morse.c:150 | Characters other than blanks, '/', newline, '.' and '-' do not affect decoding. |
| Morse.DecodeLongCode | morse.c:142-148 | A code longer than nine symbols is read as its first nine. |
| Morse.RoundTripFrom | morse.c:73-161 | From any synchronised encoder and decoder state, decoding the encoder's output gives the normalised text. |
| Morse.RoundTrip | morse.c:73-166 | With the default separators " " and " / ", decoding the encoding gives the upper-cased supported text. Runs of spaces become one, unsupported characters are dropped, and the two final newlines follow. |
| Braille.TableIndexed | braille.c:23-41 | The 49 entries sit at the positions their characters call for, with the cells braille.c:23-41 lists. |
| Braille.SharedCells | braille.c:25-38 | A digit shares the cell of the letter A to J that stands for it, and ')' shares the cell of '('. |
| Braille.Lookup | braille.c:67-75 | A supported character is found at its own entry. |
| Braille.SupportedIff | braille.c:67-75 | A cell is found exactly for letters of either case, digits and the 13 marks. |
| Braille.FindCell | braille.c:78-90 | The first entry with a cell is the letter for a digit's cell, '(' for ')', and the entry itself otherwise. |
| Braille.NotASign | braille.c:43-45 | No character's cell is the capital or number sign, or the letter sign. |
| Braille.ReadLetter | braille.c:67-90 | A letter's cell, read with a capital announced exactly for upper case, gives the letter back, unless number mode turns A-J into digits. |
| Braille.ReadLetterAsDigit | braille.c:78-90 | In number mode the cells of A-I read as 1-9 and that of J as 0. |
| Braille.ReadDigit | braille.c:67-90 | A digit's cell, read in number mode, gives the digit back. |
| Braille.ReadMark | braille.c:67-90 | A mark's cell reads as the mark, except that ')' reads as '('. |
| Braille.UnknownCell | braille.c:78-90 | A cell no entry has reads as '?'. |
| Braille.PatternToText | braille.c:93-104 | Six characters, each 'o' or '.'. |
| Braille.PatternTextRoundTrip | braille.c:93-118 | A cell written as dot text and read back is the same cell. |
| Braille.TextPatternRoundTrip | braille.c:93-118 | Six dot characters read as a cell and written back are the same text. |
| Braille.EncodeWritten | braille.c:121-178 | The encoder output ends in a newline. It holds only newlines and braille code points in Unicode mode, or 'o' and '.' in text mode. |
| Braille.Decode | braille.c:181-265 | The output always ends in a newline. |
| Braille.LexRender | braille.c:190-261 | In both modes, the decoder's reader splits the encoder's rendering back into the cells and line breaks that were rendered. |
| Braille.CodecThroughSymbols | braille.c:121-265 | Decoding the encoding is the symbol-level decoder applied to the encoder's symbols, followed by two newlines. |
| Braille.DecodeEncodedChar | braille.c:141-174 | The decoder reads each encoded character back as its normal form, carrying the number mode along. As written this needs no A-J letter to follow digits. |
| Braille.RoundTripFrom | braille.c:121-265 | From any number mode, the symbols of a text decode to its normal form. As written this needs no A-J letter to follow digits. |
| Braille.RoundTrip | braille.c:121-265 | With a letter sign before an A-J letter that follows digits, every text round-trips in both modes. The result is the supported characters, ')' as '(', then two newlines. |
| Braille.RoundTripAsWritten | braille.c:121-265 | As written, the same round trip holds for every text in which no A-J letter follows digits on the same line. |
| Braille.DigitThenLetterMisread | braille.c:142-154 | As written, "1a" decodes to "11" in both modes. |
| Leet.ParseLevel | leet.c:184-189 | An accepted level lies in 1 to 3. |
| Leet.ParseLevelDigits | leet.c:184-189 | Take a level written in digits whose value fits a long. It is accepted exactly when the value modulo 2^32 (the int `atoi` leaves) is 1, 2 or 3, and that is the level. A value too large for a long is refused. |
| Leet.ParseLevelShow | leet.c:184-189 | A printed level n is accepted exactly when n modulo 2^32 is 1 to 3. For example 4294967298 is accepted as level 2. |
| Leet.ParseLevelAccepts | leet.c:184 | `atoi` reads a leading number: "2" is level 2 and " 3x" is level 3. |
| Leet.ParseLevelRefuses | leet.c:185-188 | "4", "0" and "high" are refused. |
| Leet.LookupMeaning | leet.c:88-104 | Both lookups find exactly what the table holds. A replacement is the value of an entry with that key, and a key is that of an entry with that value. Nothing is found only when no entry fits. |
| Leet.FindLeetEntry | leet.c:88-95 | With distinct keys, every entry's key finds that entry's value. |
| Leet.BasicShape | leet.c:16-25 | Level 1 has its keys in alphabetical order, so they are distinct, and one-character replacements. |
| Leet.AdvancedShape | leet.c:27-39 | The same holds for level 2. |
| Leet.ExtremeShape | leet.c:41-69 | Level 3 replacements have one to four characters, the lengths the decoder tries, and not all have one. |
| Leet.EncodeLength | leet.c:106-124 | At levels 1 and 2, encoding keeps the length of the text. |
| Leet.EncodeKeeps | leet.c:116-122 | Characters without an entry pass through unchanged. |
| Leet.Longest | leet.c:149-158 | The match is the longest one of at most four characters, and no longer length matches. |
| Leet.DecodeReadsPrefix | leet.c:139-142 | Input past the first 1023 characters is never read. |
| Leet.DecodeByChars | leet.c:126-165 | At levels 1 and 2, decoding reads each character on its own. |
| Leet.EncodeDecodeEncode | leet.c:106-165 | At levels 1 and 2, decoding loses case and merges letters that share a replacement. Encoding the decoded text still gives back the same leetspeak. |
| Leet.FindNormalExamples | leet.c:97-104 | The first entry wins: at level 1, "1" reads as i and "4" as a. |
| Leet.DecodeExamples | leet.c:144-164 | Greedy matching: at level 3 "\|_\|" reads as u, and at level 1 "1" reads as i. |
| DancingMan.TableShape | dancing_man.c:17-76 | Both tables list A to Z in order. |
| DancingMan.FigureLookup | dancing_man.c:97-107 | A figure is found exactly for letters of either case, and it is the figure of the upper-cased letter. |
| DancingMan.PoseLetter | dancing_man.c:17-45 | Every full figure reads back as its own letter, so the full figures are distinct. |
| DancingMan.CompactLetter | dancing_man.c:48-76 | A compact figure reads back as the first letter drawn the same way. |
| DancingMan.CompactCollision | dancing_man.c:48-76 | In compact mode V reads back as A, because the two figures are equal. |
| DancingMan.EncodeNoNul | dancing_man.c:120-148 | The encoder never writes a NUL, so the decoder's C string holds all of its input. |
| DancingMan.InputWhole | dancing_man.c:160-165 | Input of at most 4095 characters without NUL is read whole. |
| DancingMan.DecodeReadsPrefix | dancing_man.c:160-165 | Input past the first 4095 characters is never read. |
| DancingMan.CompactSplit | dancing_man.c:169-179 | `strtok` splits the compact encoding into one token per letter and "[SP]" per space. |
| DancingMan.CompactRoundTrip | dancing_man.c:120-180 | In compact mode, encoding and then decoding completes, with no overrun. It gives the letters upper-cased, each as the first letter drawn like it, and the spaces. Other characters are dropped. Stated for encodings of at most 4095 characters. |
| DancingMan.FullRoundTrip | dancing_man.c:120-221 | Corrected (empty lines reach the reader), full-mode decoding of an encoding never overruns `current_figure`. It gives the letters upper-cased plus the spaces and newlines. Stated for encodings of at most 4095 characters. |
| DancingMan.AsWrittenBlanks | dancing_man.c:183-219 | As written, `strtok` never yields the empty line that ends a figure. So the full decoder, when it stays within `current_figure`, writes at most one letter, at the very end. |
| DancingMan.MergedFigures | dancing_man.c:183-219 | As written, "AB" encoded in full mode decodes to nothing, within the buffer. Corrected, it decodes to "AB". |
| DancingMan.OntoLetters | dancing_man.c:183-207 | As written, each further letter's figure joins the open one: at least 12 more characters per letter. The scan overruns exactly when the joined figure reaches 256 characters. |
| DancingMan.EncodeFullLength | dancing_man.c:120-152 | Each input character adds at most 16 characters to the full encoding. |
| DancingMan.LettersOverrun | dancing_man.c:183-207 | As written, the full encoding of 22 or more letters overruns `current_figure[256]`: the decoder's result is undefined. Corrected, the same encoding decodes back to its letters. |
| DancingMan.PoseSize | dancing_man.c:17-45 | A full figure has 11 to 14 characters. |
| DancingMan.NoLongFigure | dancing_man.c:109-118 | A text longer than 14 characters is no figure. |
| CStrings.StrtokFields | dancing_man.c:169-179 | `strtok`'s tokens are the non-empty fields between delimiters. |
| CStrings.FieldsJoin | dancing_man.c:204-207 | Lines joined with newlines split back into the same lines. |

## Left out

- Command-line handling is not modelled, except base85's `parse_wrap_value` and `parse_arguments` and leet's level check. Out of scope: `getopt_long`, usage and version text, `--help`/`--version` exits, opening files and the I/O error paths. Each tool's wrap width, mapping, separators or mode is a parameter of the model.
- stderr warnings are not modelled as text. Where a warning reflects a state of the decoder, that state is part of the result.
- `fread`/`fgetc` chunking is not modelled: the streams are whole sequences.
- `setlocale` and wide-character I/O in braille are not modelled. A code point is a Dafny `char` and the encoder's `%lc` output is that character.
- factoradic reads its input with `fgets` into 256 bytes. A longer line is split by `fgets` into several lines; the model takes one line of input.
- factoradic verbose output, dna's `show_mapping_info` and `calculate_gc_content`, and `isprint` in warning messages are diagnostic text that is not part of the conversion.
- leet's `-i`/`--ignore-case` flag is parsed, but the source never reads it, so nothing depends on it.
- dancing_man's full decoder copies every figure line into `current_figure[256]` with `strcat` and never checks the length. A figure of 256 characters or more writes out of bounds. The model gives `None` for such input, the undefined outcome, and does not model what the overrun does. As written this happens even on the encoder's own output (`DancingMan.LettersOverrun`). With empty lines kept, no encoder output overruns (`DancingMan.FullRoundTrip`).
- ascii85's version text calls the format RFC 1924 compatible. The alphabet and the `z`/`y` shortcuts are Adobe's, and the model follows the code.
- Morse.RoundTrip: stated for the default separators " " and " / " only. Other separators can contain dots and dashes that the decoder would read as code.
- Leet.EncodeDecodeEncode: stated for levels 1 and 2 and inputs under 1024 characters. At level 3 replacements overlap, so greedy decoding is not an inverse; there the model proves only `Leet.DecodeExamples`.
- Factoradic.RoundTrip: stated when the printed form is all decimal digits. A digit of 10 or more, possible from position 10 on, is printed as the character after '9', which the decoder refuses.
- DancingMan.CompactRoundTrip: stated for encodings of at most 4095 characters, the decoder's buffer. Longer input is cut, as `DancingMan.DecodeReadsPrefix` states.
- DancingMan.FullRoundTrip: the same 4095-character bound.
- DancingMan.LettersOverrun: stated for encodings of at most 4095 characters. A longer encoding of letters overruns too, within its first 22 figures, but the model does not prove this through the input cut.
- Leet.ParseLevelDigits: stated for digit strings. A sign or leading blanks go through the same `strtol` clamp and 32-bit narrowing in `CStdlib.Atoi`.
- Ascii85.RoundTrip: as written it holds only for lengths that are a multiple of 4. See the findings.
- Braille.RoundTripAsWritten: requires that no letter A-J follow digits on a line. See the findings.

## Findings

| source | as written | input that shows it | evidently intended | confidence | as-written member | corrected member |
|---|---|---|---|---|---|---|
| ascii85.c:103-107 | A trailing group of n bytes is written to `output[3-i]`, the end of the buffer. The first n bytes are then written out, holding the previous group's stale bytes. | [0,0,0,0,1] decodes to [0,0,0,0,0] | The n bytes are written at the front, so the original bytes come back | not executed | Ascii85.TrailingByteAsWritten | Ascii85.RoundTripFixed |
| base85.c:22-39 | The decoding table maps 'A'-'Z' to 10-35 and 'a'-'z' to 36-61, the reverse of the alphabet. It refuses '>' and '}' although they are alphabet symbols. Seven marks read as another symbol's value ('.', '-', '+', '^', '/', '?', '{'; `Z85.TableMarksSwapped`). It accepts '_' and '\|', which are not symbols (`Z85.TableExtraSymbols`). | [0,0,0,10] encodes to "0000a" and decodes to [0,0,0,36] | The table is the inverse of the alphabet | not executed | Z85.TableRoundTripFails | Z85.RoundTripFixed |
| base85.c:290-297 | After padding, `count` is 5, so `output_bytes` is always 4. | [0] encodes to "00" and decodes to [0,9,94,236] | n leftover symbols give n-1 bytes | not executed | Z85.TrailerLengthAsWritten | Z85.RoundTripFixed |
| factoradic.c:135-144 | `digit * fact` wraps modulo 2^64 before the overflow check. | "9" followed by 19 zeros gives 3449373999880208384 | The too-large error | not executed | Factoradic.NineAtTwentyAsWritten | Factoradic.CheckedMeaning |
| factoradic.c:135-144 | `factorial(21)` returns 0, so positions past 20 contribute nothing. | "1" followed by 20 zeros gives 0 | The too-large error | not executed | Factoradic.PositionTwentyOneAsWritten | Factoradic.CheckedMeaning |
| braille.c:142-154 | Number mode stays on across a letter, and no letter sign is written. The decoder then reads a-j after a digit as digits. | "1a" decodes to "11" | A letter sign (dots 5-6) ends number mode before a-j | not executed | Braille.DigitThenLetterMisread | Braille.RoundTrip |
| dancing_man.c:183-198 | `strtok` with "\n" skips empty lines, so the empty line that should end a figure never arrives, and the figures run together. | "AB" in full mode decodes to "" | Each figure, ended by its blank line, decodes to its letter | not executed | DancingMan.MergedFigures | DancingMan.FullRoundTrip |
| dancing_man.c:183-207 | No line resets `current_figure`, so every figure line is appended to it with `strcat`, past its 256 bytes. | "ABCDEFGHIJKLMNOPQRSTUVWXYZ": its full encoding has at most 417 characters (`DancingMan.EncodeFullLength`), and its figures join into one of more than 255 characters | Each figure is ended by its blank line and stays at most 14 characters | not executed | DancingMan.LettersOverrun | DancingMan.FullRoundTrip |
