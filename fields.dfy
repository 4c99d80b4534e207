/** The two field encoders of the assembler: `register_to_binary`
    (starter.py:98-107) and `dec_to_bin` (starter.py:109-116), and the
    reasons an instruction can fail to encode. */
module Fields {
  import opened Results
  import opened Text
  import opened Numerals

  /** The instruction layouts whose operand count is checked. */
  datatype Format = RFormat | IFormat | JFormat | JumpRegisterFormat

  /** Why one instruction could not be encoded: one constructor per
      `raise` in the encoder, plus `MalformedAddress` for the failed
      two-way unpacking of `offset(base)` and `MissingOperand` for an
      operand index past the end of the token list. */
  datatype Cause =
    | InvalidRegister(token: string)
    | RegisterOutOfRange(token: string)
    | ValueOutOfRange(value: int, width: nat)
    | InvalidLiteral(text: string)
    | InvalidSyntax(format: Format)
    | UndefinedLabel(name: string)
    | UndefinedDataLabel(name: string)
    | MalformedAddress(operand: string)
    | UnknownInstruction(mnemonic: string)
    | MissingOperand

  /** `R` followed by decimal digits whose value is at most 7. */
  predicate IsRegister(token: string) {
    |token| >= 2 && token[0] == 'R' && IsDecimal(token[1..]) && Value(token[1..], 10) <= 7
  }

  /** The register number a register token names. */
  function RegisterNumber(token: string): nat
    requires |token| >= 1
  {
    Value(token[1..], 10)
  }

  /** The 3-bit field of a register token. */
  function RegisterToBinary(token: string): (r: Result<string, Cause>)
    ensures r.Ok? <==> IsRegister(token)
    ensures r.Ok? ==> |r.value| == 3 && IsDigits(r.value, 2) && Value(r.value, 2) == RegisterNumber(token)
    ensures r.Err? && (token == [] || token[0] != 'R' || !IsDecimal(token[1..])) ==> r.error == InvalidRegister(token)
    ensures r.Err? && |token| >= 1 && token[0] == 'R' && IsDecimal(token[1..]) ==> r.error == RegisterOutOfRange(token)
  {
    if !StartsWith(token, "R") || !IsDecimal(token[1..]) then Err(InvalidRegister(token))
    else
      var n := Value(token[1..], 10);
      if !(0 <= n <= 7) then Err(RegisterOutOfRange(token))
      else
        assert Pow(2, 3) == 8;
        ZeroPadNumeral(n, 2, 3);
        ValueOfFixed(n, 2, 3);
        DivModUnique(n, 8, 0, n);
        Ok(ZeroPad(Numeral(n, 2), 3))
  }

  /** The canonical register names `R0`..`R7` encode to their number in three
      bits, and `R8` and above are out of range. */
  lemma RegisterNameRoundTrip(n: nat)
    ensures var r := RegisterToBinary("R" + Decimal(n));
      && (n <= 7 ==> r.Ok? && r.value == Fixed(n, 2, 3) && Value(r.value, 2) == n)
      && (n > 7 ==> r == Err(RegisterOutOfRange("R" + Decimal(n))))
  {
    var token := "R" + Decimal(n);
    assert token[1..] == Numeral(n, 10);
    ValueOfNumeral(n, 10);
    if n <= 7 {
      assert Pow(2, 3) == 8;
      ZeroPadNumeral(n, 2, 3);
    }
  }

  /** The register a 3-bit field names is a register token again. */
  lemma RegisterFieldRoundTrip(token: string)
    requires IsRegister(token)
    ensures RegisterToBinary("R" + Decimal(Value(RegisterToBinary(token).value, 2))) == RegisterToBinary(token)
  {
    var n := RegisterNumber(token);
    RegisterNameRoundTrip(n);
    assert Pow(2, 3) == 8;
    ZeroPadNumeral(n, 2, 3);
  }

  /** The largest value a `w`-bit two's-complement field holds, plus one. */
  function Half(w: nat): (h: nat)
    requires w >= 1
    ensures h >= 1 && Pow(2, w) == 2 * h
  {
    Pow(2, w - 1)
  }

  /** `value` as `w` binary digits in two's complement, if it fits. */
  function DecToBin(value: int, w: nat): (r: Result<string, Cause>)
    requires w >= 1
    ensures r.Ok? <==> 0 - Half(w) <= value < Half(w)
    ensures r.Err? ==> r.error == ValueOutOfRange(value, w)
    ensures r.Ok? ==> |r.value| == w && IsDigits(r.value, 2) && SignedValue(r.value) == value
    ensures r.Ok? && value >= 0 ==> Value(r.value, 2) == value
  {
    if !(0 - Pow(2, w - 1) <= value < Pow(2, w - 1)) then Err(ValueOutOfRange(value, w))
    else
      var u: nat := if value < 0 then Pow(2, w) + value else value;
      TwosComplementField(value, u, w);
      Ok(ZeroPad(Numeral(u, 2), w))
  }

  lemma TwosComplementField(value: int, u: nat, w: nat)
    requires w >= 1 && 0 - Half(w) <= value < Half(w)
    requires u == if value < 0 then Pow(2, w) + value else value
    ensures ZeroPad(Numeral(u, 2), w) == Fixed(u, 2, w)
    ensures Value(Fixed(u, 2, w), 2) == u
    ensures SignedValue(Fixed(u, 2, w)) == value
  {
    var p := Pow(2, w);
    ZeroPadNumeral(u, 2, w);
    ValueOfFixed(u, 2, w);
    DivModUnique(u, p, 0, u);
    LeadingBit(u, w);
  }

  /** The range check of `dec_to_bin` for the 6-bit immediates: 31 and -32
      fit, 32 and -33 do not. */
  lemma ImmediateBounds()
    ensures DecToBin(31, 6).Ok? && DecToBin(-32, 6).Ok?
    ensures DecToBin(32, 6) == Err(ValueOutOfRange(32, 6))
    ensures DecToBin(-33, 6) == Err(ValueOutOfRange(-33, 6))
  {
    assert Half(6) == 32;
  }
}
