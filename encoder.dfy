/** `encode_instruction` (starter.py:118-240): one assembly instruction to
    one 16-bit machine word, written as binary digits in space-separated
    groups. Next to the encoder stands `Decode`, which reads the fields of a
    16-bit word back by position; each format's lemma below says what
    `Decode` finds in an encoded word and exactly when encoding succeeds. */
module Encoder {
  import opened Results
  import opened Text
  import opened Numerals
  import opened Fields

  /** A symbol table: label to instruction number or data address. */
  type Table = map<string, nat>

  /** A failed encoding, with the line number and the text of the
      instruction that `encode_instruction` adds to the message. */
  datatype Failure = Failure(line: int, instruction: string, cause: Cause)

  /** The mnemonics of the instruction set. */
  datatype Op = Add | Sub | And | Or | Slt | Addi | Beq | Bne | Lw | Sw | J | Jal | Jr | Display

  /** The mnemonic a token names, if any. */
  function MnemonicOf(token: string): Option<Op> {
    match token
    case "add" => Some(Add)
    case "sub" => Some(Sub)
    case "and" => Some(And)
    case "or" => Some(Or)
    case "slt" => Some(Slt)
    case "addi" => Some(Addi)
    case "beq" => Some(Beq)
    case "bne" => Some(Bne)
    case "lw" => Some(Lw)
    case "sw" => Some(Sw)
    case "j" => Some(J)
    case "jal" => Some(Jal)
    case "jr" => Some(Jr)
    case "display" => Some(Display)
    case _ => None
  }

  /** How a mnemonic is spelled; reading the spelling gives the mnemonic back. */
  function Name(op: Op): (s: string)
    ensures MnemonicOf(s) == Some(op)
  {
    match op
    case Add => "add"
    case Sub => "sub"
    case And => "and"
    case Or => "or"
    case Slt => "slt"
    case Addi => "addi"
    case Beq => "beq"
    case Bne => "bne"
    case Lw => "lw"
    case Sw => "sw"
    case J => "j"
    case Jal => "jal"
    case Jr => "jr"
    case Display => "display"
  }

  predicate IsRMnemonic(op: Op) {
    op == Add || op == Sub || op == And || op == Or || op == Slt
  }

  predicate IsIMnemonic(op: Op) {
    op == Addi || op == Beq || op == Bne || op == Lw || op == Sw
  }

  predicate IsJMnemonic(op: Op) {
    op == J || op == Jal
  }

  /** The 3-bit function code of a register-format mnemonic. */
  function FuncCode(op: Op): string
    requires IsRMnemonic(op)
  {
    if op == Add then "010" else if op == Sub then "110" else if op == And then "000"
    else if op == Or then "001" else "111"
  }

  /** The 4-bit opcode of an immediate-format or jump mnemonic. */
  function Opcode(op: Op): string
    requires IsIMnemonic(op) || IsJMnemonic(op)
  {
    if op == Addi then "0101" else if op == Beq then "0011" else if op == Bne then "0110"
    else if op == Lw then "0001" else if op == Sw then "0010" else if op == J then "0100" else "1000"
  }

  /** The function codes of the instruction set, as numbers. */
  function FuncNumber(op: Op): nat
    requires IsRMnemonic(op)
  {
    if op == Add then 2 else if op == Sub then 6 else if op == And then 0
    else if op == Or then 1 else 7
  }

  /** The opcodes of the instruction set, as numbers. */
  function OpcodeNumber(op: Op): nat
    requires IsIMnemonic(op) || IsJMnemonic(op)
  {
    if op == Addi then 5 else if op == Beq then 3 else if op == Bne then 6
    else if op == Lw then 1 else if op == Sw then 2 else if op == J then 4 else 8
  }

  /** The grouping of a register-format and a `jr` word: 4, 3, 3, 3, 3. */
  function RLayout(b: string): string
    requires |b| >= 13
  {
    b[..4] + " " + b[4..7] + " " + b[7..10] + " " + b[10..13] + " " + b[13..]
  }

  /** The grouping of an immediate-format word: 4, 3, 3, 6. */
  function ILayout(b: string): string
    requires |b| >= 10
  {
    b[..4] + " " + b[4..7] + " " + b[7..10] + " " + b[10..]
  }

  /** The grouping of a jump word: 4, 12. */
  function JLayout(b: string): string
    requires |b| >= 4
  {
    b[..4] + " " + b[4..]
  }

  /** The grouping of the display word: 4, 3, 9. */
  function DisplayLayout(b: string): string
    requires |b| >= 7
  {
    b[..4] + " " + b[4..7] + " " + b[7..]
  }

  /** A word with its grouping spaces removed (`line.replace(' ', '')`). */
  function Packed(word: string): string {
    RemoveChar(word, ' ')
  }

  /** Sixteen binary digits. */
  predicate IsWord16(b: string) {
    |b| == 16 && IsDigits(b, 2)
  }

  /** The instruction's tokens: commas count as blanks. */
  function Tokens(instruction: string): (parts: seq<string>)
    ensures forall k :: 0 <= k < |parts| ==> IsWord(parts[k]) && ',' !in parts[k]
  {
    var blanked := ReplaceChar(instruction, ',', ' ');
    WordsFree(blanked, ',');
    Words(blanked)
  }

  /** Python's `int(text)`, failing with `InvalidLiteral`. */
  function Literal(text: string): (r: Result<int, Cause>)
    ensures r.Ok? <==> ParseInt(text).Some?
    ensures r.Ok? ==> r.value == ParseInt(text).value
    ensures r.Err? ==> r.error == InvalidLiteral(text)
  {
    match ParseInt(text)
    case None => Err(InvalidLiteral(text))
    case Some(v) => Ok(v)
  }

  /** `int(str(n)) == n`: every integer's own decimal form is read back. */
  lemma LiteralOfDecimal(n: int)
    ensures Literal(Decimal(n)) == Ok(n)
  {
    ParseDecimal(n);
  }

  /** What `int` makes of a digit string `d`: its value, the same value after
      a `+`, and its negation after a `-`. */
  lemma LiteralForms(d: string)
    requires IsDecimal(d)
    ensures Literal(d) == Ok(Value(d, 10))
    ensures Literal("+" + d) == Literal(d)
    ensures Literal("-" + d) == Ok(0 - Value(d, 10))
  {
    ParseUnsigned(d);
    ParseNegative(d);
    assert ("+" + d)[1..] == d;
  }

  /** A leading zero changes nothing: `int("007") == int("7")`. */
  lemma LiteralLeadingZero(d: string)
    requires IsDecimal(d)
    ensures Literal("0" + d) == Literal(d)
  {
    var z := "0" + d;
    assert z[1..] == d;
    assert IsDecimal(z) by {
      assert forall i :: 1 <= i < |z| ==> z[i] == d[i - 1];
    }
    ValueFront(z, 10);
    ParseUnsigned(z);
    ParseUnsigned(d);
  }

  /** `int` refuses the empty text, a bare sign, and any text with a character
      that is not a digit, other than a sign in front. */
  lemma LiteralRejects(text: string, i: nat)
    requires i < |text| && DigitValue(text[i]) >= 10
    requires i > 0 || (text[0] != '-' && text[0] != '+')
    ensures Literal(text) == Err(InvalidLiteral(text))
    ensures Literal("") == Err(InvalidLiteral(""))
    ensures Literal("-") == Err(InvalidLiteral("-")) && Literal("+") == Err(InvalidLiteral("+"))
  {
    if i > 0 && (text[0] == '-' || text[0] == '+') {
      assert text[1..][i - 1] == text[i];
    }
    assert ("-")[1..] == [];
    assert ("+")[1..] == [];
  }

  function EncodeR(op: Op, parts: seq<string>): (r: Result<string, Cause>)
    requires IsRMnemonic(op)
  {
    if |parts| != 4 then Err(InvalidSyntax(RFormat))
    else
      var rs :- RegisterToBinary(parts[2]);
      var rt :- RegisterToBinary(parts[3]);
      var rd :- RegisterToBinary(parts[1]);
      Ok(RLayout("0000" + rs + rt + rd + FuncCode(op)))
  }

  /** The source register field and the 6-bit immediate of an
      immediate-format instruction, after the target register. */
  function IOperands(line: int, op: Op, parts: seq<string>, labels: Table, data: Table): (r: Result<(string, string), Cause>)
    requires IsIMnemonic(op) && |parts| >= 2
    requires |parts| >= 4 || op == Lw || op == Sw
    ensures r.Ok? ==> |r.value.0| == 3 && IsDigits(r.value.0, 2) && |r.value.1| == 6 && IsDigits(r.value.1, 2)
  {
    if op.Addi? then AddiOperands(parts)
    else if op.Beq? || op.Bne? then BranchOperands(line, parts, labels)
    else if |parts| < 3 then Err(MissingOperand)
    else if '(' in parts[2] then AddressOperands(parts[2])
    else DataOperands(parts[2], data)
  }

  /** `addi rt, rs, n`: the register `rs` and the literal `n`, which must
      lie in [-32, 32). */
  function AddiOperands(parts: seq<string>): (r: Result<(string, string), Cause>)
    requires |parts| >= 4
    ensures r.Ok? <==> IsRegister(parts[2]) && ParseInt(parts[3]).Some? && -32 <= ParseInt(parts[3]).value < 32
    ensures !IsRegister(parts[2]) ==> r == Err(RegisterToBinary(parts[2]).error)
    ensures IsRegister(parts[2]) && ParseInt(parts[3]).None? ==> r == Err(InvalidLiteral(parts[3]))
    ensures IsRegister(parts[2]) && ParseInt(parts[3]).Some? && !(-32 <= ParseInt(parts[3]).value < 32) ==>
      r == Err(ValueOutOfRange(ParseInt(parts[3]).value, 6))
    ensures r.Ok? ==> && |r.value.0| == 3 && IsDigits(r.value.0, 2) && |r.value.1| == 6 && IsDigits(r.value.1, 2)
                      && Value(r.value.0, 2) == RegisterNumber(parts[2]) && SignedValue(r.value.1) == ParseInt(parts[3]).value
  {
    assert Half(6) == 32;
    var rs :- RegisterToBinary(parts[2]);
    var v :- Literal(parts[3]);
    var immediate :- DecToBin(v, 6);
    Ok((rs, immediate))
  }

  /** `beq`/`bne rt, rs, label`: the register `rs` and the distance from
      the next instruction to the label, which must lie in [-32, 32)
      (`BranchOperandsMeaning`). */
  function BranchOperands(line: int, parts: seq<string>, labels: Table): (r: Result<(string, string), Cause>)
    requires |parts| >= 4
    ensures r.Ok? ==> |r.value.0| == 3 && IsDigits(r.value.0, 2) && |r.value.1| == 6 && IsDigits(r.value.1, 2)
  {
    var rs :- RegisterToBinary(parts[2]);
    if parts[3] !in labels then Err(UndefinedLabel(parts[3]))
    else
      var immediate :- DecToBin(labels[parts[3]] - (line + 1), 6);
      Ok((rs, immediate))
  }

  lemma BranchOperandsMeaning(line: int, parts: seq<string>, labels: Table)
    requires |parts| >= 4
    ensures var r := BranchOperands(line, parts, labels);
      && (r.Ok? <==> IsRegister(parts[2]) && parts[3] in labels && -32 <= labels[parts[3]] - (line + 1) < 32)
      && (!IsRegister(parts[2]) ==> r == Err(RegisterToBinary(parts[2]).error))
      && (IsRegister(parts[2]) && parts[3] !in labels ==> r == Err(UndefinedLabel(parts[3])))
      && (IsRegister(parts[2]) && parts[3] in labels && !(-32 <= labels[parts[3]] - (line + 1) < 32) ==>
            r == Err(ValueOutOfRange(labels[parts[3]] - (line + 1), 6)))
      && (r.Ok? ==> Value(r.value.0, 2) == RegisterNumber(parts[2]) && SignedValue(r.value.1) == labels[parts[3]] - (line + 1))
  {
    assert Half(6) == 32;
  }

  /** `lw`/`sw rt, name`: base R0 and the address of the data label, which
      must lie below 32. */
  function DataOperands(operand: string, data: Table): (r: Result<(string, string), Cause>)
    ensures r.Ok? <==> operand in data && data[operand] < 32
    ensures operand !in data ==> r == Err(UndefinedDataLabel(operand))
    ensures operand in data && data[operand] >= 32 ==> r == Err(ValueOutOfRange(data[operand], 6))
    ensures r.Ok? ==> && |r.value.0| == 3 && IsDigits(r.value.0, 2) && |r.value.1| == 6 && IsDigits(r.value.1, 2)
                      && Value(r.value.0, 2) == 0 && SignedValue(r.value.1) == data[operand]
  {
    assert Half(6) == 32;
    Zeros("000");
    if operand !in data then Err(UndefinedDataLabel(operand))
    else
      var immediate :- DecToBin(data[operand], 6);
      Ok(("000", immediate))
  }

  /** The offset text and base register of an `offset(base)` operand that
      splits at `(` into exactly two pieces. */
  function AddressOffset(operand: string): string
    requires |SplitOn(operand, '(')| == 2
  {
    Strip(SplitOn(operand, '(')[0])
  }

  function AddressBase(operand: string): string
    requires |SplitOn(operand, '(')| == 2
  {
    StripBy(SplitOn(operand, '(')[1], Only(')'))
  }

  /** `lw`/`sw rt, offset(base)`: split at `(`, which must leave exactly two
      pieces; the base is the second piece without its `)`, the offset the
      first without blanks, a literal in [-32, 32). */
  function AddressOperands(operand: string): (r: Result<(string, string), Cause>)
    ensures r.Ok? <==> && |SplitOn(operand, '(')| == 2
                       && IsRegister(AddressBase(operand)) && ParseInt(AddressOffset(operand)).Some?
                       && -32 <= ParseInt(AddressOffset(operand)).value < 32
    ensures |SplitOn(operand, '(')| != 2 ==> r == Err(MalformedAddress(operand))
    ensures |SplitOn(operand, '(')| == 2 && !IsRegister(AddressBase(operand)) ==>
      r == Err(RegisterToBinary(AddressBase(operand)).error)
    ensures |SplitOn(operand, '(')| == 2 && IsRegister(AddressBase(operand)) ==>
      match ParseInt(AddressOffset(operand))
      case None => r == Err(InvalidLiteral(AddressOffset(operand)))
      case Some(v) => !(-32 <= v < 32) ==> r == Err(ValueOutOfRange(v, 6))
    ensures r.Ok? ==> && |r.value.0| == 3 && IsDigits(r.value.0, 2) && |r.value.1| == 6 && IsDigits(r.value.1, 2)
                      && Value(r.value.0, 2) == RegisterNumber(AddressBase(operand))
                      && SignedValue(r.value.1) == ParseInt(AddressOffset(operand)).value
  {
    assert Half(6) == 32;
    var pieces := SplitOn(operand, '(');
    if |pieces| != 2 then Err(MalformedAddress(operand))
    else
      var rs :- RegisterToBinary(StripBy(pieces[1], Only(')')));
      var v :- Literal(Strip(pieces[0]));
      var immediate :- DecToBin(v, 6);
      Ok((rs, immediate))
  }

  function EncodeI(line: int, op: Op, parts: seq<string>, labels: Table, data: Table): (r: Result<string, Cause>)
    requires IsIMnemonic(op)
  {
    if |parts| < 4 && op != Lw && op != Sw then Err(InvalidSyntax(IFormat))
    else if |parts| < 2 then Err(MissingOperand)
    else
      var rt :- RegisterToBinary(parts[1]);
      var fields :- IOperands(line, op, parts, labels, data);
      Ok(ILayout(Opcode(op) + fields.0 + rt + fields.1))
  }

  function EncodeJ(op: Op, parts: seq<string>, labels: Table): (r: Result<string, Cause>)
    requires IsJMnemonic(op)
  {
    if |parts| != 2 then Err(InvalidSyntax(JFormat))
    else if parts[1] !in labels then Err(UndefinedLabel(parts[1]))
    else
      var address :- DecToBin(labels[parts[1]], 12);
      Ok(JLayout(Opcode(op) + address))
  }

  function EncodeJr(parts: seq<string>): (r: Result<string, Cause>) {
    if |parts| != 2 then Err(InvalidSyntax(JumpRegisterFormat))
    else
      var rs :- RegisterToBinary(parts[1]);
      Ok(RLayout("0111" + rs + "000000000"))
  }

  /** The fixed word of `display`. */
  function DisplayWord(): string {
    DisplayLayout("1111000000000000")
  }

  /** The encoding of an instruction already split into tokens. */
  function EncodeParts(line: int, parts: seq<string>, labels: Table, data: Table): Result<string, Cause> {
    if |parts| == 0 then Err(MissingOperand)
    else
      match MnemonicOf(parts[0])
      case None => Err(UnknownInstruction(parts[0]))
      case Some(op) => EncodeOp(line, op, parts, labels, data)
  }

  /** The encoder the mnemonic's format selects. */
  function EncodeOp(line: int, op: Op, parts: seq<string>, labels: Table, data: Table): Result<string, Cause> {
    if IsRMnemonic(op) then EncodeR(op, parts)
    else if IsIMnemonic(op) then EncodeI(line, op, parts, labels, data)
    else if IsJMnemonic(op) then EncodeJ(op, parts, labels)
    else if op == Jr then EncodeJr(parts)
    else Ok(DisplayWord())
  }

  /** `encode_instruction`: a 16-bit word, or the cause of failure together
      with the line number and the instruction's text. */
  function EncodeInstruction(line: int, instruction: string, labels: Table, data: Table): (r: Result<string, Failure>)
    ensures r.Ok? ==> IsWord16(Packed(r.value))
    ensures r.Err? ==> r.error.line == line && r.error.instruction == instruction
    ensures r.Err? <==> EncodeParts(line, Tokens(instruction), labels, data).Err?
  {
    var parts := Tokens(instruction);
    EncodedWord16(line, parts, labels, data);
    match EncodeParts(line, parts, labels, data)
    case Ok(word) => Ok(word)
    case Err(cause) => Err(Failure(line, instruction, cause))
  }

  /** What the fields of a 16-bit word say. */
  datatype Machine =
    | RType(func: nat, rs: nat, rt: nat, rd: nat)
    | IType(opcode: nat, rs: nat, rt: nat, immediate: int)
    | JType(opcode: nat, address: nat)
    | JumpRegister(rs: nat)
    | Output

  /** Reads a 16-bit word by the layout of the instruction set: the opcode in
      the top four bits selects the layout; register fields and the jump
      address are unsigned, immediates are two's complement. */
  function Decode(b: string): Option<Machine>
    requires IsWord16(b)
  {
    var opcode := Value(b[..4], 2);
    if opcode == 0 then
      Some(RType(Value(b[13..], 2), Value(b[4..7], 2), Value(b[7..10], 2), Value(b[10..13], 2)))
    else if opcode == 1 || opcode == 2 || opcode == 3 || opcode == 5 || opcode == 6 then
      Some(IType(opcode, Value(b[4..7], 2), Value(b[7..10], 2), SignedValue(b[10..])))
    else if opcode == 4 || opcode == 8 then
      Some(JType(opcode, Value(b[4..], 2)))
    else if opcode == 7 && Value(b[7..], 2) == 0 then
      Some(JumpRegister(Value(b[4..7], 2)))
    else if opcode == 15 && Value(b[4..], 2) == 0 then
      Some(Output)
    else None
  }

  // ---- Reading each layout back ----

  lemma DecodeRWord(op: Op, code: string, rs: string, rt: string, rd: string)
    requires IsRMnemonic(op)
    requires |code| == 4 && IsDigits(code, 2) && Value(code, 2) == 0
    requires |rs| == 3 && |rt| == 3 && |rd| == 3
    requires IsDigits(rs, 2) && IsDigits(rt, 2) && IsDigits(rd, 2)
    ensures var b := code + rs + rt + rd + FuncCode(op);
      && IsWord16(b) && Packed(RLayout(b)) == b
      && Decode(b) == Some(RType(FuncNumber(op), Value(rs, 2), Value(rt, 2), Value(rd, 2)))
  {
    var f := FuncCode(op);
    var b := code + rs + rt + rd + f;
    FuncValue(op);
    DigitsConcat(code, rs);
    DigitsConcat(code + rs, rt);
    DigitsConcat(code + rs + rt, rd);
    DigitsConcat(code + rs + rt + rd, f);
    UnspacedR(b);
    SlicesR(code, rs, rt, rd, f);
    DecodeR(b);
  }

  lemma SlicesR(code: string, rs: string, rt: string, rd: string, f: string)
    requires |code| == 4 && |rs| == 3 && |rt| == 3 && |rd| == 3 && |f| == 3
    ensures var b := code + rs + rt + rd + f;
      b[..4] == code && b[4..7] == rs && b[7..10] == rt && b[10..13] == rd && b[13..] == f
  {
  }

  /** A word with opcode 0 reads as a register-format word. */
  lemma DecodeR(b: string)
    requires IsWord16(b) && Value(b[..4], 2) == 0
    ensures Decode(b) == Some(RType(Value(b[13..], 2), Value(b[4..7], 2), Value(b[7..10], 2), Value(b[10..13], 2)))
  {
  }

  lemma DecodeIWord(op: Op, rs: string, rt: string, immediate: string)
    requires IsIMnemonic(op)
    requires |rs| == 3 && |rt| == 3 && |immediate| == 6
    requires IsDigits(rs, 2) && IsDigits(rt, 2) && IsDigits(immediate, 2)
    ensures var b := Opcode(op) + rs + rt + immediate;
      && IsWord16(b) && Packed(ILayout(b)) == b
      && Decode(b) == Some(IType(OpcodeNumber(op), Value(rs, 2), Value(rt, 2), SignedValue(immediate)))
  {
    var c := Opcode(op);
    var b := c + rs + rt + immediate;
    OpcodeValue(op);
    DigitsConcat(c, rs);
    DigitsConcat(c + rs, rt);
    DigitsConcat(c + rs + rt, immediate);
    UnspacedI(b);
    SlicesI(c, rs, rt, immediate);
    DecodeI(b);
  }

  lemma SlicesI(code: string, rs: string, rt: string, immediate: string)
    requires |code| == 4 && |rs| == 3 && |rt| == 3 && |immediate| == 6
    ensures var b := code + rs + rt + immediate;
      b[..4] == code && b[4..7] == rs && b[7..10] == rt && b[10..] == immediate
  {
  }

  /** A word with an immediate-format opcode reads as an immediate-format word. */
  lemma DecodeI(b: string)
    requires IsWord16(b)
    requires var c := Value(b[..4], 2); c == 1 || c == 2 || c == 3 || c == 5 || c == 6
    ensures Decode(b) == Some(IType(Value(b[..4], 2), Value(b[4..7], 2), Value(b[7..10], 2), SignedValue(b[10..])))
  {
  }

  lemma DecodeJWord(op: Op, address: string)
    requires IsJMnemonic(op) && |address| == 12 && IsDigits(address, 2)
    ensures var b := Opcode(op) + address;
      && IsWord16(b) && Packed(JLayout(b)) == b
      && Decode(b) == Some(JType(OpcodeNumber(op), Value(address, 2)))
  {
    var c := Opcode(op);
    var b := c + address;
    OpcodeValue(op);
    DigitsConcat(c, address);
    UnspacedJ(b);
    assert b[..4] == c && b[4..] == address;
    DecodeJ(b);
  }

  /** A word with a jump opcode reads as a jump word. */
  lemma DecodeJ(b: string)
    requires IsWord16(b) && (Value(b[..4], 2) == 4 || Value(b[..4], 2) == 8)
    ensures Decode(b) == Some(JType(Value(b[..4], 2), Value(b[4..], 2)))
  {
  }

  lemma DecodeJrWord(code: string, rs: string, zeros: string)
    requires |code| == 4 && IsDigits(code, 2) && Value(code, 2) == 7
    requires |rs| == 3 && IsDigits(rs, 2)
    requires |zeros| == 9 && forall i :: 0 <= i < |zeros| ==> zeros[i] == '0'
    ensures var b := code + rs + zeros;
      && IsWord16(b) && Packed(RLayout(b)) == b
      && Decode(b) == Some(JumpRegister(Value(rs, 2)))
  {
    var b := code + rs + zeros;
    Zeros(zeros);
    DigitsConcat(code, rs);
    DigitsConcat(code + rs, zeros);
    UnspacedR(b);
    assert b[..4] == code && b[4..7] == rs && b[7..] == zeros;
    DecodeJr(b);
  }

  /** A word with opcode 7 and nine zero bits reads as `jr`. */
  lemma DecodeJr(b: string)
    requires IsWord16(b) && Value(b[..4], 2) == 7 && Value(b[7..], 2) == 0
    ensures Decode(b) == Some(JumpRegister(Value(b[4..7], 2)))
  {
  }

  lemma DecodeDisplayWord(code: string, zeros: string)
    requires |code| == 4 && IsDigits(code, 2) && Value(code, 2) == 15
    requires |zeros| == 12 && forall i :: 0 <= i < |zeros| ==> zeros[i] == '0'
    ensures var b := code + zeros;
      && IsWord16(b) && Packed(DisplayLayout(b)) == b
      && Decode(b) == Some(Output)
  {
    var b := code + zeros;
    Zeros(zeros);
    DigitsConcat(code, zeros);
    UnspacedDisplay(b);
    assert b[..4] == code && b[4..] == zeros;
  }

  /** The fixed 4-bit codes of the register format, `jr` and `display`. */
  lemma FixedCodes()
    ensures IsDigits("0000", 2) && Value("0000", 2) == 0
    ensures IsDigits("0111", 2) && Value("0111", 2) == 7
    ensures IsDigits("1111", 2) && Value("1111", 2) == 15
  {
    Zeros("0000");
    BitsValue4("0111");
    BitsValue4("1111");
    assert DigitValue('0') == 0 && DigitValue('1') == 1;
  }

  // ---- Which encoder a mnemonic selects ----

  lemma DispatchOp(line: int, op: Op, parts: seq<string>, labels: Table, data: Table)
    requires |parts| >= 1 && MnemonicOf(parts[0]) == Some(op)
    ensures EncodeParts(line, parts, labels, data) == EncodeOp(line, op, parts, labels, data)
  {
  }

  lemma DispatchR(line: int, op: Op, parts: seq<string>, labels: Table, data: Table)
    requires |parts| >= 1 && MnemonicOf(parts[0]) == Some(op) && IsRMnemonic(op)
    ensures EncodeParts(line, parts, labels, data) == EncodeR(op, parts)
  {
    DispatchOp(line, op, parts, labels, data);
    assert EncodeOp(line, op, parts, labels, data) == EncodeR(op, parts);
  }

  lemma DispatchI(line: int, op: Op, parts: seq<string>, labels: Table, data: Table)
    requires |parts| >= 1 && MnemonicOf(parts[0]) == Some(op) && IsIMnemonic(op)
    ensures EncodeParts(line, parts, labels, data) == EncodeI(line, op, parts, labels, data)
  {
    DispatchOp(line, op, parts, labels, data);
    assert EncodeOp(line, op, parts, labels, data) == EncodeI(line, op, parts, labels, data);
  }

  lemma DispatchJ(line: int, op: Op, parts: seq<string>, labels: Table, data: Table)
    requires |parts| >= 1 && MnemonicOf(parts[0]) == Some(op) && IsJMnemonic(op)
    ensures EncodeParts(line, parts, labels, data) == EncodeJ(op, parts, labels)
  {
    DispatchOp(line, op, parts, labels, data);
    assert EncodeOp(line, op, parts, labels, data) == EncodeJ(op, parts, labels);
  }

  lemma DispatchJr(line: int, parts: seq<string>, labels: Table, data: Table)
    requires |parts| >= 1 && MnemonicOf(parts[0]) == Some(Jr)
    ensures EncodeParts(line, parts, labels, data) == EncodeJr(parts)
  {
    DispatchOp(line, Jr, parts, labels, data);
    assert EncodeOp(line, Jr, parts, labels, data) == EncodeJr(parts);
  }

  lemma DispatchDisplay(line: int, parts: seq<string>, labels: Table, data: Table)
    requires |parts| >= 1 && MnemonicOf(parts[0]) == Some(Display)
    ensures EncodeParts(line, parts, labels, data) == Ok(DisplayWord())
  {
    DispatchOp(line, Display, parts, labels, data);
    assert EncodeOp(line, Display, parts, labels, data) == Ok(DisplayWord());
  }

  // ---- Format lemmas: when encoding succeeds, and what Decode reads back ----

  /** A register-format instruction encodes iff it has exactly three register
      operands; the word holds rs = the second operand, rt = the third,
      rd = the first, and the mnemonic's function code. */
  lemma RFormatEncoding(line: int, op: Op, parts: seq<string>, labels: Table, data: Table)
    requires |parts| >= 1 && MnemonicOf(parts[0]) == Some(op) && IsRMnemonic(op)
    ensures var r := EncodeParts(line, parts, labels, data);
      && (r.Ok? <==> |parts| == 4 && IsRegister(parts[1]) && IsRegister(parts[2]) && IsRegister(parts[3]))
      && (|parts| != 4 ==> r == Err(InvalidSyntax(RFormat)))
      && (r.Ok? ==> (IsWord16(Packed(r.value)) && Decode(Packed(r.value)) ==
            Some(RType(FuncNumber(op), RegisterNumber(parts[2]), RegisterNumber(parts[3]), RegisterNumber(parts[1])))))
  {
    DispatchR(line, op, parts, labels, data);
    if EncodeR(op, parts).Ok? {
      FixedCodes();
      DecodeRWord(op, "0000", RegisterToBinary(parts[2]).value, RegisterToBinary(parts[3]).value,
                  RegisterToBinary(parts[1]).value);
    }
  }

  /** A register-format instruction with three operands reports the first
      invalid register in the order the source converts them: the second
      operand (rs), the third (rt), then the first (rd). */
  lemma RFormatErrors(line: int, op: Op, parts: seq<string>, labels: Table, data: Table)
    requires |parts| == 4 && MnemonicOf(parts[0]) == Some(op) && IsRMnemonic(op)
    ensures var r := EncodeParts(line, parts, labels, data);
      && (!IsRegister(parts[2]) ==> r == Err(RegisterToBinary(parts[2]).error))
      && (IsRegister(parts[2]) && !IsRegister(parts[3]) ==> r == Err(RegisterToBinary(parts[3]).error))
      && (IsRegister(parts[2]) && IsRegister(parts[3]) && !IsRegister(parts[1]) ==>
            r == Err(RegisterToBinary(parts[1]).error))
  {
    DispatchR(line, op, parts, labels, data);
  }

  /** An immediate-format instruction with enough operands whose first operand
      (rt) is not a register fails with that register's error, before any
      other operand is read. */
  lemma IRegisterError(line: int, op: Op, parts: seq<string>, labels: Table, data: Table)
    requires |parts| >= 2 && MnemonicOf(parts[0]) == Some(op) && IsIMnemonic(op)
    requires |parts| >= 4 || op == Lw || op == Sw
    requires !IsRegister(parts[1])
    ensures EncodeParts(line, parts, labels, data) == Err(RegisterToBinary(parts[1]).error)
  {
    DispatchI(line, op, parts, labels, data);
  }

  /** With a valid rt, `addi` reports an invalid rs, then a literal outside
      [-32, 32) together with the six-bit width. */
  lemma AddiErrors(line: int, parts: seq<string>, labels: Table, data: Table)
    requires |parts| >= 4 && MnemonicOf(parts[0]) == Some(Addi) && IsRegister(parts[1])
    ensures var r := EncodeParts(line, parts, labels, data);
      && (!IsRegister(parts[2]) ==> r == Err(RegisterToBinary(parts[2]).error))
      && (IsRegister(parts[2]) && ParseInt(parts[3]).Some? && !(-32 <= ParseInt(parts[3]).value < 32) ==>
            r == Err(ValueOutOfRange(ParseInt(parts[3]).value, 6)))
  {
    DispatchI(line, Addi, parts, labels, data);
    IFields(line, Addi, parts, labels, data);
    AddiOperandsOf(line, parts, labels, data);
  }

  /** With a valid rt, a branch reports an invalid rs, then a distance to
      the label outside [-32, 32) together with the six-bit width. */
  lemma BranchErrors(line: int, op: Op, parts: seq<string>, labels: Table, data: Table)
    requires |parts| >= 4 && MnemonicOf(parts[0]) == Some(op) && (op == Beq || op == Bne) && IsRegister(parts[1])
    ensures var r := EncodeParts(line, parts, labels, data);
      && (!IsRegister(parts[2]) ==> r == Err(RegisterToBinary(parts[2]).error))
      && (IsRegister(parts[2]) && parts[3] in labels && !(-32 <= labels[parts[3]] - (line + 1) < 32) ==>
            r == Err(ValueOutOfRange(labels[parts[3]] - (line + 1), 6)))
  {
    DispatchI(line, op, parts, labels, data);
    IFields(line, op, parts, labels, data);
    BranchOperandsOf(line, op, parts, labels, data);
    BranchOperandsMeaning(line, parts, labels);
  }

  /** With a valid rt, `lw`/`sw rt, name` reports a data address of 32 or
      more together with the six-bit width. */
  lemma LoadStoreDataErrors(line: int, op: Op, parts: seq<string>, labels: Table, data: Table)
    requires |parts| >= 3 && MnemonicOf(parts[0]) == Some(op) && (op == Lw || op == Sw) && '(' !in parts[2]
    requires IsRegister(parts[1]) && parts[2] in data && data[parts[2]] >= 32
    ensures EncodeParts(line, parts, labels, data) == Err(ValueOutOfRange(data[parts[2]], 6))
  {
    DispatchI(line, op, parts, labels, data);
    IFields(line, op, parts, labels, data);
    DataOperandsOf(line, op, parts, labels, data);
  }

  /** With a valid rt and an operand that splits at `(` into two pieces,
      `lw`/`sw rt, offset(base)` reports an invalid base register, then an
      offset that is not a literal, then an offset outside [-32, 32). */
  lemma LoadStoreBaseErrors(line: int, op: Op, parts: seq<string>, labels: Table, data: Table)
    requires |parts| >= 3 && MnemonicOf(parts[0]) == Some(op) && (op == Lw || op == Sw) && '(' in parts[2]
    requires IsRegister(parts[1]) && |SplitOn(parts[2], '(')| == 2
    ensures var r := EncodeParts(line, parts, labels, data);
      && (!IsRegister(AddressBase(parts[2])) ==> r == Err(RegisterToBinary(AddressBase(parts[2])).error))
      && (IsRegister(AddressBase(parts[2])) && ParseInt(AddressOffset(parts[2])).None? ==>
            r == Err(InvalidLiteral(AddressOffset(parts[2]))))
      && (IsRegister(AddressBase(parts[2])) && ParseInt(AddressOffset(parts[2])).Some? &&
          !(-32 <= ParseInt(AddressOffset(parts[2])).value < 32) ==>
            r == Err(ValueOutOfRange(ParseInt(AddressOffset(parts[2])).value, 6)))
  {
    DispatchI(line, op, parts, labels, data);
    IFields(line, op, parts, labels, data);
    AddressOperandsOf(line, op, parts, labels, data);
  }

  /** `addi rt, rs, n` encodes iff both registers are valid and `n` is a
      decimal literal in [-32, 32); the word holds opcode 5, rs, rt and `n`. */
  lemma AddiEncoding(line: int, parts: seq<string>, labels: Table, data: Table)
    requires |parts| >= 1 && MnemonicOf(parts[0]) == Some(Addi)
    ensures EncodeParts(line, parts, labels, data).Ok? <==>
      && |parts| >= 4 && IsRegister(parts[1]) && IsRegister(parts[2])
      && ParseInt(parts[3]).Some? && -32 <= ParseInt(parts[3]).value < 32
    ensures |parts| < 4 ==> EncodeParts(line, parts, labels, data) == Err(InvalidSyntax(IFormat))
    ensures |parts| >= 4 && IsRegister(parts[1]) && IsRegister(parts[2]) && ParseInt(parts[3]).None? ==>
      EncodeParts(line, parts, labels, data) == Err(InvalidLiteral(parts[3]))
  {
    DispatchI(line, Addi, parts, labels, data);
    if |parts| >= 4 {
      IFields(line, Addi, parts, labels, data);
      AddiOperandsOf(line, parts, labels, data);
    }
  }

  /** The word of an encoded `addi` holds opcode 5, rs, rt and the literal. */
  lemma AddiWord(line: int, parts: seq<string>, labels: Table, data: Table)
    requires |parts| >= 1 && MnemonicOf(parts[0]) == Some(Addi)
    requires EncodeParts(line, parts, labels, data).Ok?
    ensures |parts| >= 4 && IsRegister(parts[1]) && IsRegister(parts[2]) && ParseInt(parts[3]).Some?
    ensures IsWord16(Packed(EncodeParts(line, parts, labels, data).value))
    ensures Decode(Packed(EncodeParts(line, parts, labels, data).value)) ==
      Some(IType(5, RegisterNumber(parts[2]), RegisterNumber(parts[1]), ParseInt(parts[3]).value))
  {
    DispatchI(line, Addi, parts, labels, data);
    IFields(line, Addi, parts, labels, data);
    AddiOperandsOf(line, parts, labels, data);
    var f := AddiOperands(parts);
    var w := Packed(EncodeI(line, Addi, parts, labels, data).value);
    assert Packed(EncodeParts(line, parts, labels, data).value) == w;
    SameIType(Decode(w), OpcodeNumber(Addi), Value(f.value.0, 2), RegisterNumber(parts[2]),
              RegisterNumber(parts[1]), SignedValue(f.value.1), ParseInt(parts[3]).value);
  }

  /** `beq`/`bne rt, rs, label` encodes iff both registers are valid, the
      label is defined and its distance from the next instruction fits in
      six bits. */
  lemma BranchEncoding(line: int, op: Op, parts: seq<string>, labels: Table, data: Table)
    requires |parts| >= 1 && MnemonicOf(parts[0]) == Some(op) && (op == Beq || op == Bne)
    ensures EncodeParts(line, parts, labels, data).Ok? <==>
      && |parts| >= 4 && IsRegister(parts[1]) && IsRegister(parts[2]) && parts[3] in labels
      && -32 <= labels[parts[3]] - (line + 1) < 32
    ensures |parts| < 4 ==> EncodeParts(line, parts, labels, data) == Err(InvalidSyntax(IFormat))
    ensures |parts| >= 4 && IsRegister(parts[1]) && IsRegister(parts[2]) && parts[3] !in labels ==>
      EncodeParts(line, parts, labels, data) == Err(UndefinedLabel(parts[3]))
  {
    DispatchI(line, op, parts, labels, data);
    if |parts| >= 4 {
      IFields(line, op, parts, labels, data);
      BranchOperandsOf(line, op, parts, labels, data);
      BranchOperandsMeaning(line, parts, labels);
    }
  }

  /** The word of an encoded branch holds the distance from the next
      instruction to the label as its immediate. */
  lemma BranchWord(line: int, op: Op, parts: seq<string>, labels: Table, data: Table)
    requires |parts| >= 1 && MnemonicOf(parts[0]) == Some(op) && (op == Beq || op == Bne)
    requires EncodeParts(line, parts, labels, data).Ok?
    ensures |parts| >= 4 && IsRegister(parts[1]) && IsRegister(parts[2]) && parts[3] in labels
    ensures IsWord16(Packed(EncodeParts(line, parts, labels, data).value))
    ensures Decode(Packed(EncodeParts(line, parts, labels, data).value)) ==
      Some(IType(OpcodeNumber(op), RegisterNumber(parts[2]), RegisterNumber(parts[1]), labels[parts[3]] - (line + 1)))
  {
    DispatchI(line, op, parts, labels, data);
    ISyntax(line, op, parts, labels, data);
    BranchFields(line, op, parts, labels, data);
  }

  lemma BranchFields(line: int, op: Op, parts: seq<string>, labels: Table, data: Table)
    requires |parts| >= 4 && (op == Beq || op == Bne)
    requires EncodeI(line, op, parts, labels, data).Ok?
    ensures IsRegister(parts[1]) && IsRegister(parts[2]) && parts[3] in labels
    ensures IsWord16(Packed(EncodeI(line, op, parts, labels, data).value))
    ensures Decode(Packed(EncodeI(line, op, parts, labels, data).value)) ==
      Some(IType(OpcodeNumber(op), RegisterNumber(parts[2]), RegisterNumber(parts[1]), labels[parts[3]] - (line + 1)))
  {
    IFields(line, op, parts, labels, data);
    BranchValues(line, op, parts, labels, data);
    IWord(line, op, parts, labels, data, RegisterNumber(parts[2]), labels[parts[3]] - (line + 1));
  }

  lemma BranchValues(line: int, op: Op, parts: seq<string>, labels: Table, data: Table)
    requires |parts| >= 4 && (op == Beq || op == Bne)
    requires IOperands(line, op, parts, labels, data).Ok?
    ensures IsRegister(parts[2]) && parts[3] in labels
    ensures Value(IOperands(line, op, parts, labels, data).value.0, 2) == RegisterNumber(parts[2])
    ensures SignedValue(IOperands(line, op, parts, labels, data).value.1) == labels[parts[3]] - (line + 1)
  {
    BranchOperandsOf(line, op, parts, labels, data);
    BranchOperandsMeaning(line, parts, labels);
  }

  /** An immediate-format instruction that encodes has enough operands. */
  lemma ISyntax(line: int, op: Op, parts: seq<string>, labels: Table, data: Table)
    requires IsIMnemonic(op) && EncodeI(line, op, parts, labels, data).Ok?
    ensures |parts| >= 2 && (|parts| >= 4 || op == Lw || op == Sw)
  {
  }

  /** An encoded immediate-format word holds whatever register and
      immediate its operand reader found. */
  lemma IWord(line: int, op: Op, parts: seq<string>, labels: Table, data: Table, rs: nat, immediate: int)
    requires IsIMnemonic(op) && |parts| >= 2 && (|parts| >= 4 || op == Lw || op == Sw)
    requires EncodeI(line, op, parts, labels, data).Ok?
    requires IOperands(line, op, parts, labels, data).Ok?
    requires Value(IOperands(line, op, parts, labels, data).value.0, 2) == rs
    requires SignedValue(IOperands(line, op, parts, labels, data).value.1) == immediate
    ensures IsRegister(parts[1])
    ensures IsWord16(Packed(EncodeI(line, op, parts, labels, data).value))
    ensures Decode(Packed(EncodeI(line, op, parts, labels, data).value)) ==
      Some(IType(OpcodeNumber(op), rs, RegisterNumber(parts[1]), immediate))
  {
    IFields(line, op, parts, labels, data);
  }

  /** Equal fields make equal decoded words. */
  lemma SameIType(m: Option<Machine>, opcode: nat, rs: nat, rs': nat, rt: nat, imm: int, imm': int)
    requires m == Some(IType(opcode, rs, rt, imm)) && rs == rs' && imm == imm'
    ensures m == Some(IType(opcode, rs', rt, imm'))
  {
  }

  /** `lw`/`sw rt, name` (no parenthesis) encodes iff the register is valid
      and `name` is a data label whose address is below 32; the word uses
      R0 as base and the address as immediate. */
  lemma LoadStoreDataEncoding(line: int, op: Op, parts: seq<string>, labels: Table, data: Table)
    requires |parts| >= 3 && MnemonicOf(parts[0]) == Some(op) && (op == Lw || op == Sw) && '(' !in parts[2]
    ensures EncodeParts(line, parts, labels, data).Ok? <==> IsRegister(parts[1]) && parts[2] in data && data[parts[2]] < 32
    ensures IsRegister(parts[1]) && parts[2] !in data ==>
      EncodeParts(line, parts, labels, data) == Err(UndefinedDataLabel(parts[2]))
    ensures EncodeParts(line, parts, labels, data).Ok? ==>
      && IsWord16(Packed(EncodeParts(line, parts, labels, data).value))
      && Decode(Packed(EncodeParts(line, parts, labels, data).value)) ==
           Some(IType(OpcodeNumber(op), 0, RegisterNumber(parts[1]), data[parts[2]]))
  {
    DispatchI(line, op, parts, labels, data);
    IFields(line, op, parts, labels, data);
    DataOperandsOf(line, op, parts, labels, data);
    if EncodeParts(line, parts, labels, data).Ok? {
      var f := DataOperands(parts[2], data);
      var w := Packed(EncodeI(line, op, parts, labels, data).value);
      assert Packed(EncodeParts(line, parts, labels, data).value) == w;
      SameIType(Decode(w), OpcodeNumber(op), Value(f.value.0, 2), 0, RegisterNumber(parts[1]),
                SignedValue(f.value.1), data[parts[2]]);
    }
  }

  /** `lw`/`sw rt, offset(base)` encodes iff the operand splits at `(`
      into exactly two pieces (so holds exactly one `(`, by `SplitOnCount`),
      both registers are valid and the offset is a literal in [-32, 32). */
  lemma LoadStoreBaseEncoding(line: int, op: Op, parts: seq<string>, labels: Table, data: Table)
    requires |parts| >= 3 && MnemonicOf(parts[0]) == Some(op) && (op == Lw || op == Sw) && '(' in parts[2]
    ensures EncodeParts(line, parts, labels, data).Ok? <==>
      && IsRegister(parts[1]) && |SplitOn(parts[2], '(')| == 2
      && IsRegister(AddressBase(parts[2])) && ParseInt(AddressOffset(parts[2])).Some?
      && -32 <= ParseInt(AddressOffset(parts[2])).value < 32
    ensures IsRegister(parts[1]) && |SplitOn(parts[2], '(')| != 2 ==>
      EncodeParts(line, parts, labels, data) == Err(MalformedAddress(parts[2]))
  {
    DispatchI(line, op, parts, labels, data);
    IFields(line, op, parts, labels, data);
    AddressOperandsOf(line, op, parts, labels, data);
  }

  /** The word of an encoded `offset(base)` load or store holds the base
      register and the offset. */
  lemma LoadStoreBaseWord(line: int, op: Op, parts: seq<string>, labels: Table, data: Table)
    requires |parts| >= 3 && MnemonicOf(parts[0]) == Some(op) && (op == Lw || op == Sw) && '(' in parts[2]
    requires EncodeParts(line, parts, labels, data).Ok?
    ensures IsRegister(parts[1]) && |SplitOn(parts[2], '(')| == 2
    ensures IsRegister(AddressBase(parts[2])) && ParseInt(AddressOffset(parts[2])).Some?
    ensures IsWord16(Packed(EncodeParts(line, parts, labels, data).value))
    ensures Decode(Packed(EncodeParts(line, parts, labels, data).value)) ==
      Some(IType(OpcodeNumber(op), RegisterNumber(AddressBase(parts[2])), RegisterNumber(parts[1]),
                 ParseInt(AddressOffset(parts[2])).value))
  {
    DispatchI(line, op, parts, labels, data);
    IFields(line, op, parts, labels, data);
    AddressOperandsOf(line, op, parts, labels, data);
    var f := AddressOperands(parts[2]);
    var w := Packed(EncodeI(line, op, parts, labels, data).value);
    assert Packed(EncodeParts(line, parts, labels, data).value) == w;
    SameIType(Decode(w), OpcodeNumber(op), Value(f.value.0, 2), RegisterNumber(AddressBase(parts[2])),
              RegisterNumber(parts[1]), SignedValue(f.value.1), ParseInt(AddressOffset(parts[2])).value);
  }

  /** A load or store with fewer than two operands does not encode. */
  lemma LoadStoreShort(line: int, op: Op, parts: seq<string>, labels: Table, data: Table)
    requires 1 <= |parts| < 3 && MnemonicOf(parts[0]) == Some(op) && (op == Lw || op == Sw)
    ensures var r := EncodeParts(line, parts, labels, data);
      && r.Err?
      && (|parts| == 1 || IsRegister(parts[1]) ==> r == Err(MissingOperand))
      && (|parts| == 2 && !IsRegister(parts[1]) ==> r == Err(RegisterToBinary(parts[1]).error))
  {
    DispatchI(line, op, parts, labels, data);
    if |parts| == 2 {
      ShortOperands(line, op, parts, labels, data);
    }
  }

  lemma ShortOperands(line: int, op: Op, parts: seq<string>, labels: Table, data: Table)
    requires |parts| == 2 && (op == Lw || op == Sw)
    ensures IOperands(line, op, parts, labels, data) == Err(MissingOperand)
  {
    assert !op.Addi? && !op.Beq? && !op.Bne?;
  }

  /** `j`/`jal label` encodes iff it has one operand, a defined label, whose
      instruction number is below 2048; the word holds that number. */
  lemma JumpEncoding(line: int, op: Op, parts: seq<string>, labels: Table, data: Table)
    requires |parts| >= 1 && MnemonicOf(parts[0]) == Some(op) && IsJMnemonic(op)
    ensures var r := EncodeParts(line, parts, labels, data);
      && (r.Ok? <==> |parts| == 2 && parts[1] in labels && labels[parts[1]] < 2048)
      && (|parts| != 2 ==> r == Err(InvalidSyntax(JFormat)))
      && (|parts| == 2 && parts[1] !in labels ==> r == Err(UndefinedLabel(parts[1])))
      && (|parts| == 2 && parts[1] in labels && labels[parts[1]] >= 2048 ==> r == Err(ValueOutOfRange(labels[parts[1]], 12)))
      && (r.Ok? ==> (IsWord16(Packed(r.value)) && Decode(Packed(r.value)) ==
            Some(JType(OpcodeNumber(op), labels[parts[1]]))))
  {
    DispatchJ(line, op, parts, labels, data);
    assert Half(12) == 2048 by {
      assert Pow(2, 11) == 2048;
    }
    if EncodeJ(op, parts, labels).Ok? {
      DecodeJWord(op, DecToBin(labels[parts[1]], 12).value);
    }
  }

  /** `jr rs` encodes iff it has one valid register operand. */
  lemma JumpRegisterEncoding(line: int, parts: seq<string>, labels: Table, data: Table)
    requires |parts| >= 1 && MnemonicOf(parts[0]) == Some(Jr)
    ensures var r := EncodeParts(line, parts, labels, data);
      && (r.Ok? <==> |parts| == 2 && IsRegister(parts[1]))
      && (|parts| != 2 ==> r == Err(InvalidSyntax(JumpRegisterFormat)))
      && (|parts| == 2 && !IsRegister(parts[1]) ==> r == Err(RegisterToBinary(parts[1]).error))
      && (r.Ok? ==> (IsWord16(Packed(r.value)) && Decode(Packed(r.value)) == Some(JumpRegister(RegisterNumber(parts[1])))))
  {
    DispatchJr(line, parts, labels, data);
    if EncodeJr(parts).Ok? {
      JrFields(parts);
    }
  }

  lemma JrFields(parts: seq<string>)
    requires EncodeJr(parts).Ok?
    ensures |parts| == 2 && IsRegister(parts[1])
    ensures var w := Packed(EncodeJr(parts).value);
      IsWord16(w) && Decode(w) == Some(JumpRegister(RegisterNumber(parts[1])))
  {
    FixedCodes();
    DecodeJrWord("0111", RegisterToBinary(parts[1]).value, "000000000");
  }

  /** `display` always encodes, whatever follows it, to the display word. */
  lemma DisplayEncoding(line: int, parts: seq<string>, labels: Table, data: Table)
    requires |parts| >= 1 && MnemonicOf(parts[0]) == Some(Display)
    ensures var r := EncodeParts(line, parts, labels, data);
      && r == Ok(DisplayWord())
      && IsWord16(Packed(r.value)) && Decode(Packed(r.value)) == Some(Output)
  {
    DispatchDisplay(line, parts, labels, data);
    DisplayFields();
  }

  lemma DisplayFields()
    ensures IsWord16(Packed(DisplayWord())) && Decode(Packed(DisplayWord())) == Some(Output)
  {
    FixedCodes();
    assert "1111000000000000" == "1111" + "000000000000";
    DecodeDisplayWord("1111", "000000000000");
  }

  /** The display word, spelled out. */
  lemma DisplayWordText()
    ensures DisplayWord() == "1111 000 000000000"
  {
  }

  /** An empty instruction and an unknown mnemonic do not encode. */
  lemma UnknownEncoding(line: int, parts: seq<string>, labels: Table, data: Table)
    requires |parts| == 0 || MnemonicOf(parts[0]).None?
    ensures |parts| == 0 ==> EncodeParts(line, parts, labels, data) == Err(MissingOperand)
    ensures |parts| > 0 ==> EncodeParts(line, parts, labels, data) == Err(UnknownInstruction(parts[0]))
  {
  }

  /** Every encoded instruction is sixteen binary digits once the grouping
      spaces are removed. */
  lemma EncodedWord16(line: int, parts: seq<string>, labels: Table, data: Table)
    ensures var r := EncodeParts(line, parts, labels, data);
      r.Ok? ==> IsWord16(Packed(r.value))
  {
    if |parts| > 0 && MnemonicOf(parts[0]).Some? {
      var op := MnemonicOf(parts[0]).value;
      if IsRMnemonic(op) {
        RFormatEncoding(line, op, parts, labels, data);
      } else if op == Addi {
        if EncodeParts(line, parts, labels, data).Ok? {
          AddiWord(line, parts, labels, data);
        }
      } else if op == Beq || op == Bne {
        if EncodeParts(line, parts, labels, data).Ok? {
          BranchWord(line, op, parts, labels, data);
        }
      } else if op == Lw || op == Sw {
        if |parts| < 3 {
          LoadStoreShort(line, op, parts, labels, data);
        } else if '(' in parts[2] {
          if EncodeParts(line, parts, labels, data).Ok? {
            LoadStoreBaseWord(line, op, parts, labels, data);
          }
        } else {
          LoadStoreDataEncoding(line, op, parts, labels, data);
        }
      } else if IsJMnemonic(op) {
        JumpEncoding(line, op, parts, labels, data);
      } else if op == Jr {
        JumpRegisterEncoding(line, parts, labels, data);
      } else {
        DisplayEncoding(line, parts, labels, data);
      }
    }
  }

  /** Operands written with single blanks between them come back as the
      same tokens. */
  lemma TokensOfJoin(ws: seq<string>)
    requires forall k :: 0 <= k < |ws| ==> IsWord(ws[k]) && ',' !in ws[k]
    ensures Tokens(Join(ws, " ")) == ws
  {
    JoinFree(ws, " ", ',');
    WordsOfJoin(ws, " ");
  }

  /** Operands written with a comma and a blank between them, the way
      instructions are usually written, come back as the same tokens. */
  lemma {:induction false} TokensOfCommaJoin(ws: seq<string>)
    requires forall k :: 0 <= k < |ws| ==> IsWord(ws[k]) && ',' !in ws[k]
    ensures Tokens(Join(ws, ", ")) == ws
  {
    ReplaceJoin(ws, ", ", ',', ' ');
    assert ReplaceChar(", ", ',', ' ') == "  ";
    WordsOfJoin(ws, "  ");
  }

  /** `mnemonic op1, op2, …` splits into the mnemonic and the operands. */
  lemma {:induction false} TokensOfInstruction(mnemonic: string, operands: seq<string>)
    requires IsWord(mnemonic) && ',' !in mnemonic
    requires forall k :: 0 <= k < |operands| ==> IsWord(operands[k]) && ',' !in operands[k]
    ensures Tokens(mnemonic + " " + Join(operands, ", ")) == [mnemonic] + operands
  {
    var list := Join(operands, ", ");
    ReplaceConcat(mnemonic + " ", list, ',', ' ');
    ReplaceConcat(mnemonic, " ", ',', ' ');
    ReplaceJoin(operands, ", ", ',', ' ');
    assert ReplaceChar(", ", ',', ' ') == "  ";
    WordsSeparated(mnemonic, " ", Join(operands, "  "));
    WordsOfJoin(operands, "  ");
  }

  /** Text made of blanks and commas: what `replace(",", " ")` turns into whitespace. */
  predicate Delimiter(g: string) {
    forall i :: 0 <= i < |g| ==> IsSpace(g[i]) || g[i] == ','
  }

  /** The gaps with their commas made blanks. */
  function Blanked(gaps: seq<string>): (r: seq<string>)
    ensures |r| == |gaps|
    ensures forall k :: 0 <= k < |gaps| ==> r[k] == ReplaceChar(gaps[k], ',', ' ')
  {
    if gaps == [] then [] else [ReplaceChar(gaps[0], ',', ' ')] + Blanked(gaps[1..])
  }

  /** Comma-free tokens laid out between delimiters of blanks and commas,
      non-empty between two tokens and possibly empty at either end, come
      back as the same tokens: `addi R1,R2, 3`, ` addi R1 , R2,3 ` and
      `addi R1, R2, 3` all give `addi`, `R1`, `R2`, `3`. */
  lemma {:induction false} TokensOfInterleave(gaps: seq<string>, ws: seq<string>)
    requires |gaps| == |ws| + 1
    requires forall k :: 0 <= k < |gaps| ==> Delimiter(gaps[k])
    requires forall k :: 0 < k < |ws| ==> gaps[k] != []
    requires forall k :: 0 <= k < |ws| ==> IsWord(ws[k]) && ',' !in ws[k]
    ensures Tokens(Interleave(gaps, ws)) == ws
  {
    ReplaceInterleave(gaps, ws);
    var blank := Blanked(gaps);
    forall k | 0 <= k < |blank|
      ensures AllSpace(blank[k])
      ensures 0 < k < |ws| ==> blank[k] != []
    {
      assert forall i :: 0 <= i < |gaps[k]| ==> blank[k][i] == if gaps[k][i] == ',' then ' ' else gaps[k][i];
    }
    WordsOfInterleave(blank, ws);
  }

  lemma {:induction false} ReplaceInterleave(gaps: seq<string>, ws: seq<string>)
    requires |gaps| == |ws| + 1
    requires forall k :: 0 <= k < |ws| ==> ',' !in ws[k]
    ensures ReplaceChar(Interleave(gaps, ws), ',', ' ') == Interleave(Blanked(gaps), ws)
    decreases |ws|
  {
    if ws != [] {
      var rest := Interleave(gaps[1..], ws[1..]);
      var blank := Blanked(gaps);
      ReplaceInterleave(gaps[1..], ws[1..]);
      ReplaceConcat(gaps[0] + ws[0], rest, ',', ' ');
      ReplaceConcat(gaps[0], ws[0], ',', ' ');
      assert ReplaceChar(ws[0], ',', ' ') == ws[0];
      assert Interleave(blank, ws) == blank[0] + ws[0] + Interleave(blank[1..], ws[1..]);
    }
  }

  // ---- Helpers ----

  /** The operand reader each immediate-format mnemonic uses. */
  lemma AddiOperandsOf(line: int, parts: seq<string>, labels: Table, data: Table)
    requires |parts| >= 4
    ensures IOperands(line, Addi, parts, labels, data) == AddiOperands(parts)
  {
  }

  lemma BranchOperandsOf(line: int, op: Op, parts: seq<string>, labels: Table, data: Table)
    requires |parts| >= 4 && (op == Beq || op == Bne)
    ensures IOperands(line, op, parts, labels, data) == BranchOperands(line, parts, labels)
  {
  }

  lemma AddressOperandsOf(line: int, op: Op, parts: seq<string>, labels: Table, data: Table)
    requires |parts| >= 3 && (op == Lw || op == Sw) && '(' in parts[2]
    ensures IOperands(line, op, parts, labels, data) == AddressOperands(parts[2])
  {
  }

  lemma DataOperandsOf(line: int, op: Op, parts: seq<string>, labels: Table, data: Table)
    requires |parts| >= 3 && (op == Lw || op == Sw) && '(' !in parts[2]
    ensures IOperands(line, op, parts, labels, data) == DataOperands(parts[2], data)
  {
  }

  /** An immediate-format instruction with enough operands encodes iff its
      target register and its remaining operands do; the word holds them. */
  lemma IFields(line: int, op: Op, parts: seq<string>, labels: Table, data: Table)
    requires IsIMnemonic(op) && |parts| >= 2 && (|parts| >= 4 || op == Lw || op == Sw)
    ensures EncodeI(line, op, parts, labels, data).Ok? <==>
      IsRegister(parts[1]) && IOperands(line, op, parts, labels, data).Ok?
    ensures IsRegister(parts[1]) && IOperands(line, op, parts, labels, data).Err? ==>
      EncodeI(line, op, parts, labels, data) == Err(IOperands(line, op, parts, labels, data).error)
    ensures EncodeI(line, op, parts, labels, data).Ok? ==>
      var w, f := Packed(EncodeI(line, op, parts, labels, data).value), IOperands(line, op, parts, labels, data).value;
      IsWord16(w) && Decode(w) == Some(IType(OpcodeNumber(op), Value(f.0, 2), RegisterNumber(parts[1]), SignedValue(f.1)))
  {
    var f := IOperands(line, op, parts, labels, data);
    if IsRegister(parts[1]) && f.Ok? {
      DecodeIWord(op, f.value.0, RegisterToBinary(parts[1]).value, f.value.1);
    }
  }

  lemma FuncValue(op: Op)
    requires IsRMnemonic(op)
    ensures |FuncCode(op)| == 3 && IsDigits(FuncCode(op), 2) && Value(FuncCode(op), 2) == FuncNumber(op)
  {
    if op == Add { BitsValue3("010"); }
    else if op == Sub { BitsValue3("110"); }
    else if op == And { BitsValue3("000"); }
    else if op == Or { BitsValue3("001"); }
    else { BitsValue3("111"); }
  }

  lemma OpcodeValue(op: Op)
    requires IsIMnemonic(op) || IsJMnemonic(op)
    ensures |Opcode(op)| == 4 && IsDigits(Opcode(op), 2) && Value(Opcode(op), 2) == OpcodeNumber(op)
  {
    if op == Addi { BitsValue4("0101"); }
    else if op == Beq { BitsValue4("0011"); }
    else if op == Bne { BitsValue4("0110"); }
    else if op == Lw { BitsValue4("0001"); }
    else if op == Sw { BitsValue4("0010"); }
    else if op == J { BitsValue4("0100"); }
    else { BitsValue4("1000"); }
  }

  lemma DigitsConcat(a: string, b: string)
    requires IsDigits(a, 2) && IsDigits(b, 2)
    ensures IsDigits(a + b, 2)
  {
    var s := a + b;
    forall i | 0 <= i < |s|
      ensures DigitValue(s[i]) < 2
    {
      if i < |a| {
        assert s[i] == a[i];
      } else {
        assert s[i] == b[i - |a|];
      }
    }
  }

  /** Binary digits contain no blank. */
  lemma BinaryHasNoBlank(b: string)
    requires IsDigits(b, 2)
    ensures ' ' !in b
  {
    assert DigitValue(' ') == 16;
  }

  lemma PackedBlank(x: string, y: string)
    ensures Packed(x + " " + y) == Packed(x) + Packed(y)
  {
    RemoveCharConcat(x + " ", y, ' ');
    RemoveCharConcat(x, " ", ' ');
  }

  /** Removing the blanks undoes each layout: each layout is the previous
      one followed by a blank and the last group. */
  lemma UnspacedR(b: string)
    requires |b| >= 13 && IsDigits(b, 2)
    ensures Packed(RLayout(b)) == b
  {
    var head := b[..13];
    assert RLayout(b) == ILayout(head) + " " + b[13..];
    UnspacedI(head);
    PackedGroup(ILayout(head), b[13..]);
    assert head + b[13..] == b;
  }

  lemma UnspacedI(b: string)
    requires |b| >= 10 && IsDigits(b, 2)
    ensures Packed(ILayout(b)) == b
  {
    var head := b[..10];
    assert ILayout(b) == DisplayLayout(head) + " " + b[10..];
    UnspacedDisplay(head);
    PackedGroup(DisplayLayout(head), b[10..]);
    assert head + b[10..] == b;
  }

  lemma UnspacedDisplay(b: string)
    requires |b| >= 7 && IsDigits(b, 2)
    ensures Packed(DisplayLayout(b)) == b
  {
    var head := b[..7];
    assert DisplayLayout(b) == JLayout(head) + " " + b[7..];
    UnspacedJ(head);
    PackedGroup(JLayout(head), b[7..]);
    assert head + b[7..] == b;
  }

  lemma UnspacedJ(b: string)
    requires |b| >= 4 && IsDigits(b, 2)
    ensures Packed(JLayout(b)) == b
  {
    PackedGroup(b[..4], b[4..]);
    BinaryHasNoBlank(b[..4]);
    assert b[..4] + b[4..] == b;
  }

  /** A blank and a group of digits appended to a word survive packing as
      the digits alone. */
  lemma PackedGroup(x: string, y: string)
    requires IsDigits(y, 2)
    ensures Packed(x + " " + y) == Packed(x) + y
  {
    PackedBlank(x, y);
    BinaryHasNoBlank(y);
  }

  lemma BitsValue3(s: string)
    requires |s| == 3
    ensures Value(s, 2) == 4 * DigitValue(s[0]) + 2 * DigitValue(s[1]) + DigitValue(s[2])
  {
    var a := s[..2];
    var b := s[..1];
    assert a[..1] == b && b[..0] == [];
    assert Value(s, 2) == Value(a, 2) * 2 + DigitValue(s[2]);
    assert Value(a, 2) == Value(b, 2) * 2 + DigitValue(s[1]);
    assert Value(b, 2) == DigitValue(s[0]);
  }

  lemma BitsValue4(s: string)
    requires |s| == 4
    ensures Value(s, 2) == 8 * DigitValue(s[0]) + 4 * DigitValue(s[1]) + 2 * DigitValue(s[2]) + DigitValue(s[3])
  {
    BitsValue3(s[..3]);
  }

  /** A run of '0' is binary and denotes zero. */
  lemma Zeros(s: string)
    requires forall i :: 0 <= i < |s| ==> s[i] == '0'
    ensures IsDigits(s, 2) && Value(s, 2) == 0
  {
    FixedZero(2, |s|);
    ValueOfFixed(0, 2, |s|);
    assert s == seq(|s|, _ => '0');
  }
}
