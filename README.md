# A verified model of a two-pass assembler for a 16-bit teaching ISA

The assembler (`starter.py`) turns an assembly listing into hexadecimal
machine words for a 16-bit processor with eight registers `R0`..`R7`. It
works in these steps:

1. It cleans the lines: drops comments, trims whitespace and leaves out blank lines.
2. It pulls the `label: value` declarations of the `.data` section into a data table and a list of values.
3. It maps each code label to the number of the instruction it precedes.
4. It encodes every instruction as one 16-bit word: register format `0000 rs rt rd func`, immediate format `opcode rs rt imm6`, jump format `opcode addr12`, `jr` and `display`.
5. It renders the words as one line of four-digit hexadecimal numbers.

The model is split into modules:

- `Results` holds the `Option` and `Result` types. Each Python exception becomes an `Err` value.
- `Text` models the Python string operations the assembler uses (`strip`, `split`, `split()`, `join`, `replace`, `startswith`) on `string`.
- `Numerals` covers digit strings in bases 2 to 16. `Value` reads a string, `Fixed` and `ZeroPad(Numeral(..))` write one, `SignedValue` reads two's complement, and `ParseInt` models `int()` on ASCII decimal text.
- `Fields` models `register_to_binary` and `dec_to_bin`, and the `Cause` of a failed encoding.
- `Encoder` models `encode_instruction`. It also defines `Decode`, which reads the fields of a 16-bit word back by position. For each instruction format, lemmas state exactly when encoding succeeds and what `Decode` reads from the word. They also state which error a failing instruction gives, checking the operands in the order the source does.
- `Passes` models `preprocess_lines`, `build_data_table` and `create_label_table`. Each is a method with a loop, proved equal to a function that folds the same step over a prefix of the input. Lemmas about those functions state the properties of the passes.
- `Program` models `encode_program` as a loop method and `post_process` as a function, with a lemma that reads the hexadecimal line back.

## Model

| member | source | states |
|---|---|---|
| Passes.CleanLine | starter.py:15-19 | a line cut at its first `#` and stripped is either blank or clean: non-empty, free of `#`, no whitespace at either end |
| Passes.Preprocessed | starter.py:12-21 | the preprocessed lines are no more than the input lines and every one of them is clean |
| Passes.PreprocessLines | starter.py:12-21 | the loop returns exactly the non-blank cleaned lines, in input order (`Preprocessed`) |
| Passes.PreprocessedConcat | starter.py:13-20 | each line is handled on its own: preprocessing a concatenation concatenates the results |
| Passes.PreprocessedIdempotent | starter.py:12-21 | preprocessing twice gives the same lines as preprocessing once |
| Passes.PreprocessedOfClean | starter.py:12-21 | a list of clean lines comes back unchanged |
| Passes.CleanLineClean | starter.py:15-17 | a clean line is its own cleaned form |
| Passes.StripStripped | starter.py:17 | stripping is idempotent |
| Passes.DataStep | starter.py:44-63 | one line's step keeps every data label pointing below the number of values |
| Passes.ScanData | starter.py:38-65 | every data label maps to an address below `len(data_list)`; values and residual lines together are no more than the input; a failure names an input line |
| Passes.BuildDataTable | starter.py:38-65 | the loop keeps `memory_address == len(data_list)` and returns the table, values and residual lines of the scan, or the first failing line's error |
| Passes.ScanDataProgram | starter.py:61-63 | every residual line is an input line and no section marker |
| Passes.ScanDataResidual | starter.py:44-63 | the residual lines are exactly the lines seen outside the data section, markers removed, in order, whatever the declarations say; the final section flag is the last marker's |
| Passes.ScanDataStops | starter.py:57-59 | the first declaration that fails ends the scan with its error |
| Passes.NoDataSection | starter.py:44-63 | without `.data`/`.text` markers all lines pass through and there is no data |
| Passes.PassThrough | starter.py:61-63 | outside the data section a non-marker line is appended to the residual lines |
| Passes.Declare | starter.py:56-60 | a declaration `label:value` in the data section maps the label to the number of values declared before it, replacing an earlier address of the same label, and appends the value |
| Passes.DeclareStep | starter.py:56-60 | the single step of such a declaration |
| Passes.DeclareLine | starter.py:56-60 | any data line `key:text` with one colon whose stripped `text` is an integer maps the stripped `key` to the number of values declared before it and appends that integer |
| Passes.DeclareInvalid | starter.py:57-59 | a data line with one colon whose stripped value is not an integer fails with its index and that value |
| Passes.DeclarationPieces | starter.py:57 | `label:value` splits at `:` into exactly the label and the value |
| Passes.TwoColons | starter.py:57 | a data line with two or more colons fails to unpack, with its own index |
| Passes.NoColon | starter.py:56 | a data line without a colon is dropped |
| Passes.SplitFirst | starter.py:86 | `split(':', 1)`: the line is the label part, a colon and the rest, and the label part holds no colon |
| Passes.LabelStep | starter.py:85-94 | one line keeps every label at most the instruction count and every kept line non-empty; it appends at most the line's code |
| Passes.RunLabels | starter.py:84-94 | the scan keeps that invariant, only appends lines, and appends at most one per input line |
| Passes.LabelTable | starter.py:80-96 | no more output lines than input lines, none of them empty, every label at most `len(new_lines)` |
| Passes.CreateLabelTable | starter.py:80-96 | the loop keeps `instruction_count == len(new_lines)` and returns the labels and lines of `LabelTable` |
| Passes.RunLabelsConcat | starter.py:84-94 | scanning a concatenation is scanning its parts in turn |
| Passes.RunLabelsProgram | starter.py:85-94 | the output lines do not depend on the labels found before |
| Passes.RunLabelsKeeps | starter.py:88-89 | a line that does not define a label keeps that label's number |
| Passes.LabelledLine | starter.py:85-94 | `name: rest` maps `name` to the number of instructions before the line, so the index of the instruction on the same line or, for a bare label, of the next one, one past the end for a trailing label; a later definition of the same label wins, and the output is the code of the lines in order |
| Passes.LabelOfNamed | starter.py:85-89 | `name: rest` defines `name` |
| Fields.RegisterToBinary | starter.py:98-107 | succeeds iff the token is `R` followed by decimal digits worth at most 7; the result is three binary digits worth the register number; otherwise the invalid-register or out-of-range error as in the source |
| Fields.RegisterNameRoundTrip | starter.py:102-107 | `R0`..`R7` encode to their number in three bits and `R8` and above are out of range |
| Fields.RegisterFieldRoundTrip | starter.py:98-107 | naming the register a field encodes gives the same field again |
| Fields.Half | starter.py:114 | `2^w` is twice the bound `2^(w-1)` of a `w`-bit two's complement field |
| Fields.DecToBin | starter.py:109-116 | succeeds iff `-2^(w-1) <= v < 2^(w-1)`; then exactly `w` binary digits that read back as two's complement to `v`, and as unsigned to `v` when `v >= 0`; otherwise the out-of-range error |
| Fields.TwosComplementField | starter.py:116 | the padded binary numeral of `2^w + v` (or `v`) is the `w`-digit field whose two's complement value is `v` |
| Fields.ImmediateBounds | starter.py:114-115 | for six bits, 31 and -32 fit and 32 and -33 do not |
| Encoder.Name | starter.py:134-236 | every mnemonic's spelling selects that mnemonic |
| Encoder.Tokens | starter.py:133 | the operand tokens are non-empty and hold no whitespace and no comma |
| Encoder.TokensOfJoin | starter.py:133 | operands written with single blanks come back as the same tokens |
| Encoder.TokensOfCommaJoin | starter.py:133 | comma-free operands joined with `, ` come back as the same tokens |
| Encoder.TokensOfInstruction | starter.py:133-134 | `mnemonic op1, op2, …` splits into the mnemonic followed by the operands |
| Encoder.TokensOfInterleave | starter.py:133 | comma-free tokens between runs of blanks and commas (non-empty between tokens, possibly empty at either end) come back as the same tokens |
| Encoder.FuncValue | starter.py:148-154 | the function codes are the three-bit numerals of 2, 6, 0, 1, 7 for add, sub, and, or, slt |
| Encoder.OpcodeValue | starter.py:189-209 | the opcodes are the four-bit numerals of 5, 3, 6, 1, 2 for addi, beq, bne, lw, sw, and 4, 8 for j, jal |
| Encoder.LiteralOfDecimal | starter.py:170 | `int(str(n)) == n` for every integer `n` |
| Encoder.LiteralForms | starter.py:170 | a digit string reads as its value; a `+` in front changes nothing and a `-` negates it |
| Encoder.LiteralLeadingZero | starter.py:170 | a leading zero does not change the value |
| Encoder.LiteralRejects | starter.py:170 | the empty text, a bare sign and any text holding a non-digit other than a leading sign are invalid literals |
| Encoder.IOperands | starter.py:167-188 | the operand reader of each immediate-format mnemonic gives three and six binary digits |
| Encoder.AddiOperands | starter.py:168-170 | succeeds iff the source register is valid and the literal lies in [-32, 32); the fields are worth the register number and the literal; the errors are the register's, the literal's, or the out-of-range error for six bits |
| Encoder.BranchOperands | starter.py:171-176 | the fields are three and six binary digits |
| Encoder.BranchOperandsMeaning | starter.py:171-176 | succeeds iff the register is valid, the label is defined and `label_table[t] - (i+1)` lies in [-32, 32); the immediate is that offset; an undefined label is its own error and an offset out of range the six-bit range error |
| Encoder.DataOperands | starter.py:184-188 | succeeds iff the name is a data label with address below 32; base field 0 and immediate the address; an undefined data label is its own error and an address of 32 or more the six-bit range error |
| Encoder.AddressOperands | starter.py:178-183 | succeeds iff the operand splits at `(` into exactly two pieces, the base (second piece without `)`) is a register and the stripped offset is a literal in [-32, 32); a split into more or fewer pieces is a malformed address; then the base register's error, the offset's literal error and the six-bit range error, in that order |
| Encoder.EncodeInstruction | starter.py:131-240 | a result is sixteen binary digits once the spaces are removed; a failure carries the line number and the instruction text, exactly when the tokens do not encode |
| Encoder.RFormatEncoding | starter.py:138-161 | add/sub/and/or/slt encode iff there are exactly three register operands; the word holds rs = second, rt = third, rd = first operand and the function code; a wrong count is a syntax error |
| Encoder.RFormatErrors | starter.py:142-145 | with three operands, the error is that of the first invalid register in the order rs (second operand), rt (third), rd (first) |
| Encoder.IRegisterError | starter.py:165-167 | an immediate-format instruction with enough operands whose first operand is not a register fails with that register's error |
| Encoder.AddiErrors | starter.py:168-170 | with a valid rt, `addi` fails with rs's error, then with the six-bit range error for a literal outside [-32, 32) |
| Encoder.BranchErrors | starter.py:171-176 | with a valid rt, a branch fails with rs's error, then with the six-bit range error for an offset outside [-32, 32) |
| Encoder.LoadStoreDataErrors | starter.py:184-188 | with a valid rt, `lw`/`sw rt, name` with an address of 32 or more fails with the six-bit range error |
| Encoder.LoadStoreBaseErrors | starter.py:178-183 | with a valid rt and a two-piece operand, `lw`/`sw rt, offset(base)` fails with the base's register error, then the offset's literal error, then the six-bit range error |
| Encoder.AddiEncoding | starter.py:164-170 | `addi` encodes iff there are at least three operands, both registers are valid and the literal lies in [-32, 32); extra operands are ignored; fewer is a syntax error |
| Encoder.AddiWord | starter.py:164-200 | an encoded `addi` word holds opcode 5, rs = second operand, rt = first operand and the literal |
| Encoder.BranchEncoding | starter.py:164-176 | `beq`/`bne` encode iff there are at least three operands, both registers are valid, the label is defined and its offset from the next instruction fits six bits; an undefined label is an error |
| Encoder.BranchWord | starter.py:171-200 | an encoded branch word holds its opcode, rs = second operand, rt = first operand and immediate `label_table[t] - (i+1)` |
| Encoder.LoadStoreDataEncoding | starter.py:184-200 | `lw`/`sw rt, name` encode iff the register is valid and `name` is a data label below 32; the word holds base R0 and the address; an undefined data label is an error |
| Encoder.LoadStoreBaseEncoding | starter.py:178-183 | `lw`/`sw rt, offset(base)` encode iff the register is valid, the operand splits at `(` into exactly two pieces (it holds one `(`, by `Text.SplitOnCount`), the base is a register and the offset a literal in [-32, 32) |
| Encoder.LoadStoreBaseWord | starter.py:178-200 | the encoded word holds the base register as rs, the first operand as rt and the offset as immediate |
| Encoder.LoadStoreShort | starter.py:165-178 | a load or store with fewer than two operands does not encode: a lone operand that is not a register gives its error, otherwise the missing-operand error |
| Encoder.JumpEncoding | starter.py:203-214 | `j`/`jal` encode iff there is exactly one operand, a defined label, whose number is below 2048 (the signed 12-bit check); the word holds opcode 4 or 8 and that number; a wrong count is a syntax error, an undefined label its own error and a number of 2048 or more the twelve-bit range error |
| Encoder.JumpRegisterEncoding | starter.py:217-225 | `jr` encodes iff it has exactly one operand that is a register; the word is opcode 7, the register and nine zero bits; a wrong count is a syntax error and an invalid register its own error |
| Encoder.DisplayEncoding | starter.py:228-233 | `display` always encodes, whatever follows it, to the display word, which decodes as the output instruction |
| Encoder.DisplayWordText | starter.py:229-232 | the display word is `1111 000 000000000` |
| Encoder.UnknownEncoding | starter.py:235-236 | an unknown mnemonic is an error naming it; an empty instruction is an error |
| Encoder.EncodedWord16 | starter.py:131-236 | every encoded instruction is sixteen binary digits once the spaces are removed |
| Program.EncodeEach | starter.py:254-258 | the loop succeeds iff every line encodes; word `i` is the encoding of line `i` as instruction `i`; otherwise the failure of the first line that does not encode |
| Program.EncodeProgram | starter.py:242-258 | one word per line, word `i` = `encode_instruction(i, lines[i], …)`, each sixteen bits; fails iff some line fails, with the first failure |
| Program.PostProcess | starter.py:260-276 | a single line exactly when every space-stripped word is a binary numeral |
| Program.HexOfWord | starter.py:271 | a 16-bit word gives four lower-case hexadecimal digits with the same value, which read back to the word |
| Program.PostProcessWords | starter.py:271-276 | for 16-bit words the single output line splits at its blanks into one token per word, in order; token `k` is four hexadecimal digits equal in value to word `k` and reading back to it |
| Text.Strip | starter.py:17 | `strip()`: the slice of the input that starts after its leading whitespace and is followed only by whitespace, itself without whitespace at either end; blank iff the input is all whitespace, and the input itself when it has no whitespace |
| Text.StripBy | starter.py:181 | `strip(")")`: the same for one given character |
| Text.SplitOn | starter.py:15 | `split(c)`: at least one piece, the first being everything before the first `c`, and no piece holding `c` |
| Text.JoinSplitOn | starter.py:15 | joining the pieces of `split(c)` with `c` gives the input back |
| Text.SplitOnJoin | starter.py:57 | splitting pieces free of `c` joined with `c` gives the pieces back |
| Text.SplitOnCount | starter.py:57 | `split(c)` gives one more piece than there are `c` |
| Text.Find | starter.py:86 | the index of the first `c`, or the length when there is none |
| Text.Words | starter.py:133 | `split()`: every token is non-empty and free of whitespace |
| Text.WordsOfJoin | starter.py:274 | `split()` of tokens joined with any non-empty run of whitespace gives the tokens back |
| Text.WordsOfInterleave | starter.py:133 | `split()` of tokens laid out between whitespace gaps, non-empty between two tokens and possibly empty at either end, gives the tokens back |
| Text.WordsDecompose | starter.py:133 | conversely every text is its own tokens laid out between such gaps |
| Text.WordsFree | starter.py:133 | the tokens of a text free of a character are free of it |
| Text.ReplaceChar | starter.py:133 | `replace`: same length, each `from` replaced and every other character kept |
| Text.ReplaceConcat | starter.py:133 | `replace` distributes over concatenation |
| Text.ReplaceJoin | starter.py:133 | replacing a character the pieces do not hold changes only the separator |
| Text.RemoveChar | starter.py:271 | `replace(' ', '')`: no blank left, nothing else removed from a blank-free input |
| Text.RemoveCharConcat | starter.py:271 | removing a character distributes over concatenation |
| Numerals.ParseDecimal | starter.py:59 | `int(str(n)) == n` |
| Numerals.Numeral | starter.py:107 | the numeral of `n` is a non-empty string of digits |
| Numerals.ValueOfNumeral | starter.py:107 | the numeral of `n` reads back to `n` |
| Numerals.ZeroPad | starter.py:107 | zero padding keeps the numeral at the end and only adds `0`s in front |
| Numerals.ZeroPadNumeral | starter.py:116 | the numeral of `n < base^w` padded to `w` is the `w`-digit field of `n` |
| Numerals.ValueOfFixed | starter.py:116 | the `w`-digit field of `n` reads back to `n mod base^w` |
| Numerals.FixedOfValue | starter.py:271 | a digit string is the field of its own value |
| Numerals.ValueBound | starter.py:271 | `w` digits are worth less than `base^w` |
| Numerals.LeadingBit | starter.py:116 | the leading bit of a `w`-bit field is set iff the value is at least `2^(w-1)` |

## Left out

- `main` (reading `assembly_file.asm`, writing `program.hex` and `data.hex`) is pure file I/O and is not part of this model. The `print(line)` inside `encode_program` is console output and is left out too.
- Error messages are not modelled: each `raise` becomes a constructor of `Fields.Cause` or `Passes.DataError`. Most constructors carry the offending token, text or value (and `ValueOutOfRange` the bit width). `InvalidSyntax` carries only the format, and `MissingOperand` carries nothing; the instruction itself is in the enclosing `Encoder.Failure`. `Encoder.Failure` adds the line number and the instruction text, as the re-raise at the end of `encode_instruction` does.
- Passes.BuildDataTable: its errors also carry the index of the failing line, which the source's `ValueError` does not.
- Python's `int()` is modelled on an optional `+`/`-` followed by ASCII decimal digits (leading zeros allowed). Underscores between digits and non-ASCII decimal digits, which `int()` also accepts, are not. The operands it reads have no surrounding whitespace: they are tokens or stripped text.
- Fields.RegisterToBinary: `str.isdigit` is modelled on ASCII digits. A register such as `R²` (a Unicode digit that `isdigit` accepts but `int` rejects) is an invalid register here; the source also fails on it, but through `int()`'s error.
- Operands past the end of the token list (`lw R1`, `sw`, and an empty instruction) make the source raise `IndexError`, which escapes the `ValueError` handler. The model reports `MissingOperand` inside the same `Failure` as the other errors.
- Program.PostProcess: `int(…, 2)` is modelled on plain binary digits. Words with a sign, a `0b` prefix, underscores or surrounding tabs, which Python would also read, give `None`. Every word `encode_instruction` produces is plain binary, so this affects only other inputs.
- Encoder.BranchOperands: its own contract gives only the shape of the fields. When it succeeds and what the fields hold is stated by `Encoder.BranchOperandsMeaning`.
- Program.EncodeEach: the encoder is passed as a function value. `EncodeProgram` instantiates it with `encode_instruction`.
- The line number of `encode_instruction` is an `int`. `encode_program` always passes the instruction index.
- The label and data tables (`Encoder.Table`) are `map<string, nat>` where the source's dictionaries could hold any integer. Both tables are built by `build_data_table` and `create_label_table`, which store only counters that start at 0, so other values never reach `encode_instruction`.
