/** The last two steps of the assembler: `encode_program`
    (starter.py:242-258), which encodes every line, and `post_process`
    (starter.py:260-276), which renders the words as one line of
    four-digit hexadecimal numbers. */
module Program {
  import opened Results
  import opened Text
  import opened Numerals
  import opened Encoder

  /** The words of the lines, in order, or the failure of the first line
      that does not encode; line `i` is encoded as instruction number `i`. */
  method EncodeProgram(lines: seq<string>, labels: Table, data: Table) returns (r: Result<seq<string>, Failure>)
    ensures r.Ok? <==> forall i :: 0 <= i < |lines| ==> EncodeInstruction(i, lines[i], labels, data).Ok?
    ensures r.Ok? ==> |r.value| == |lines|
    ensures r.Ok? ==> forall i :: 0 <= i < |lines| ==> r.value[i] == EncodeInstruction(i, lines[i], labels, data).value
    ensures r.Ok? ==> forall i :: 0 <= i < |lines| ==> IsWord16(Packed(r.value[i]))
    ensures r.Err? ==> exists i :: FirstFailure(lines, LineEncoder(labels, data), i, r.error)
  {
    r := EncodeEach(lines, LineEncoder(labels, data));
  }

  /** `encode_instruction` with the two tables fixed. */
  function LineEncoder(labels: Table, data: Table): (encode: (int, string) -> Result<string, Failure>)
    ensures forall n, line :: encode(n, line) == EncodeInstruction(n, line, labels, data)
  {
    (n, line) => EncodeInstruction(n, line, labels, data)
  }

  /** Line `i` is the first that `encode` rejects, with `failure`. */
  predicate FirstFailure(lines: seq<string>, encode: (int, string) -> Result<string, Failure>, i: int, failure: Failure) {
    && 0 <= i < |lines|
    && encode(i, lines[i]) == Err(failure)
    && forall j :: 0 <= j < i ==> encode(j, lines[j]).Ok?
  }

  /** The loop of `encode_program`, for any encoder of one line. */
  method EncodeEach(lines: seq<string>, encode: (int, string) -> Result<string, Failure>) returns (r: Result<seq<string>, Failure>)
    ensures r.Ok? <==> forall i :: 0 <= i < |lines| ==> encode(i, lines[i]).Ok?
    ensures r.Ok? ==> |r.value| == |lines| && forall i :: 0 <= i < |lines| ==> r.value[i] == encode(i, lines[i]).value
    ensures r.Err? ==> exists i :: FirstFailure(lines, encode, i, r.error)
  {
    var words: seq<string> := [];
    for i := 0 to |lines|
      invariant |words| == i
      invariant forall j :: 0 <= j < i ==> encode(j, lines[j]).Ok? && words[j] == encode(j, lines[j]).value
    {
      var word := encode(i, lines[i]);
      if word.Err? {
        assert FirstFailure(lines, encode, i, word.error);
        return Err(word.error);
      }
      words := words + [word.value];
    }
    return Ok(words);
  }

  /** A non-empty string of binary digits, which `int(s, 2)` reads. */
  predicate IsBinary(s: string) {
    s != [] && IsDigits(s, 2)
  }

  /** `f"{int(word.replace(' ', ''), 2):04x}"`. */
  function HexWord(word: string): string
    requires IsBinary(Packed(word))
  {
    ZeroPad(Numeral(Value(Packed(word), 2), 16), 4)
  }

  /** `post_process`: a one-element list holding the hexadecimal numbers of
      the words separated by blanks, or `None` where `int(…, 2)` raises. */
  function PostProcess(words: seq<string>): (r: Option<seq<string>>)
    ensures r.Some? <==> forall k :: 0 <= k < |words| ==> IsBinary(Packed(words[k]))
    ensures r.Some? ==> |r.value| == 1
  {
    if forall k :: 0 <= k < |words| ==> IsBinary(Packed(words[k])) then
      Some([Join(seq(|words|, k requires 0 <= k < |words| => HexWord(words[k])), " ")])
    else None
  }

  /** The number of a 16-bit word is four lower-case hexadecimal digits
      that denote the same value and read back to the word. */
  lemma HexOfWord(word: string)
    requires IsWord16(Packed(word))
    ensures |HexWord(word)| == 4 && IsDigits(HexWord(word), 16) && IsWord(HexWord(word))
    ensures Value(HexWord(word), 16) == Value(Packed(word), 2)
    ensures Fixed(Value(HexWord(word), 16), 2, 16) == Packed(word)
  {
    var bits := Packed(word);
    var v := Value(bits, 2);
    ValueBound(bits, 2);
    Word16();
    ZeroPadNumeral(v, 16, 4);
    ValueOfFixed(v, 16, 4);
    DivModUnique(v, 65536, 0, v);
    FixedOfValue(bits, 2);
    DigitsNoSpace(HexWord(word));
  }

  lemma DigitsNoSpace(s: string)
    requires IsDigits(s, 16)
    ensures NoSpace(s)
  {
    forall i | 0 <= i < |s|
      ensures !IsSpace(s[i])
    {
      assert DigitValue(s[i]) < 16;
    }
  }

  lemma Word16()
    ensures Pow(2, 16) == 65536 && Pow(16, 4) == 65536
  {
    assert Pow(2, 4) == 16 by {
      assert Pow(2, 2) == 4;
    }
    assert Pow(2, 8) == 256 by {
      assert Pow(2, 6) == 64;
    }
    assert Pow(2, 12) == 4096 by {
      assert Pow(2, 10) == 1024;
    }
    assert Pow(2, 14) == 16384;
    assert Pow(16, 2) == 256;
  }

  /** For 16-bit words the single output line splits at its blanks into one
      token per word, in order; token `k` is the four-digit hexadecimal form
      of the packed word `k`, which it reads back to. */
  lemma PostProcessWords(words: seq<string>)
    requires forall k :: 0 <= k < |words| ==> IsWord16(Packed(words[k]))
    ensures PostProcess(words).Some?
    ensures var tokens := Words(PostProcess(words).value[0]);
      && |tokens| == |words|
      && forall k :: 0 <= k < |words| ==>
        && |tokens[k]| == 4 && IsDigits(tokens[k], 16)
        && Value(tokens[k], 16) == Value(Packed(words[k]), 2)
        && Fixed(Value(tokens[k], 16), 2, 16) == Packed(words[k])
  {
    var hex := seq(|words|, k requires 0 <= k < |words| => HexWord(words[k]));
    forall k | 0 <= k < |words|
      ensures IsWord(hex[k])
      ensures |hex[k]| == 4 && IsDigits(hex[k], 16)
      ensures Value(hex[k], 16) == Value(Packed(words[k]), 2)
      ensures Fixed(Value(hex[k], 16), 2, 16) == Packed(words[k])
    {
      HexOfWord(words[k]);
    }
    WordsOfJoin(hex, " ");
  }
}
