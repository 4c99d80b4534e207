/** The handful of Python string operations the assembler relies on:
    `strip`, `split` with and without a separator, `join`, `replace`,
    `startswith` and the `in` test, each on `string` (a `seq<char>`). */
module Text {

  /** Python's `str.isspace` for one character: the C0 separators, the
      ASCII space and the Unicode space characters. `strip()` and `split()`
      without arguments remove exactly these. */
  predicate IsSpace(c: char) {
    var n := c as int;
    || (9 <= n <= 13) || (28 <= n <= 32) || n == 0x85 || n == 0xA0 || n == 0x1680
    || (0x2000 <= n <= 0x200A) || n == 0x2028 || n == 0x2029 || n == 0x202F
    || n == 0x205F || n == 0x3000
  }

  /** The characters a strip removes: whitespace (`strip()`) or one given
      character (`strip(")")`). */
  datatype Chars = Whitespace | Only(c: char)

  predicate InChars(x: char, chars: Chars) {
    match chars
    case Whitespace => IsSpace(x)
    case Only(c) => x == c
  }

  /** True iff no character of `s` is whitespace. */
  predicate NoSpace(s: string) {
    forall i :: 0 <= i < |s| ==> !IsSpace(s[i])
  }

  /** A token `split()` can produce: non-empty and free of whitespace. */
  predicate IsWord(s: string) {
    s != [] && NoSpace(s)
  }

  predicate StartsWith(s: string, prefix: string) {
    |prefix| <= |s| && s[..|prefix|] == prefix
  }

  /** Length of the longest prefix of `s` made of characters in `chars`. */
  function LeadLength(s: string, chars: Chars): (n: nat)
    ensures n <= |s|
    ensures forall i :: 0 <= i < n ==> InChars(s[i], chars)
    ensures n < |s| ==> !InChars(s[n], chars)
  {
    if s != [] && InChars(s[0], chars) then
      var n := LeadLength(s[1..], chars);
      assert forall i :: 1 <= i < n + 1 ==> s[i] == s[1..][i - 1];
      n + 1
    else 0
  }

  /** Start of the longest suffix of `s` made of characters in `chars`. */
  function TrailStart(s: string, chars: Chars): (n: nat)
    ensures n <= |s|
    ensures forall i :: n <= i < |s| ==> InChars(s[i], chars)
    ensures n > 0 ==> !InChars(s[n - 1], chars)
  {
    if s != [] && InChars(s[|s| - 1], chars) then
      var n := TrailStart(s[..|s| - 1], chars);
      assert forall i :: n <= i < |s| - 1 ==> s[i] == s[..|s| - 1][i];
      n
    else |s|
  }

  /** Python's `s.strip(chars)`: the slice of `s` between its longest prefix
      and its longest suffix of characters in `chars`. */
  function StripBy(s: string, chars: Chars): (r: string)
    ensures LeadLength(s, chars) + |r| <= |s|
    ensures r == s[LeadLength(s, chars)..LeadLength(s, chars) + |r|]
    ensures forall i :: LeadLength(s, chars) + |r| <= i < |s| ==> InChars(s[i], chars)
    ensures r != [] ==> !InChars(r[0], chars) && !InChars(r[|r| - 1], chars)
    ensures (forall i :: 0 <= i < |s| ==> !InChars(s[i], chars)) ==> r == s
    ensures r == [] <==> forall i :: 0 <= i < |s| ==> InChars(s[i], chars)
  {
    var a := LeadLength(s, chars);
    if a == |s| then []
    else
      var b := TrailStart(s, chars);
      assert a < b;
      s[a..b]
  }

  /** Python's `s.strip()`. */
  function Strip(s: string): (r: string)
    ensures LeadLength(s, Whitespace) + |r| <= |s|
    ensures r == s[LeadLength(s, Whitespace)..LeadLength(s, Whitespace) + |r|]
    ensures forall i :: LeadLength(s, Whitespace) + |r| <= i < |s| ==> IsSpace(s[i])
    ensures r != [] ==> !IsSpace(r[0]) && !IsSpace(r[|r| - 1])
    ensures NoSpace(s) ==> r == s
    ensures r == [] <==> forall i :: 0 <= i < |s| ==> IsSpace(s[i])
  {
    StripBy(s, Whitespace)
  }

  /** Index of the first occurrence of `c` in `s`, or `|s|` when there is none. */
  function Find(s: string, c: char): (i: nat)
    ensures i <= |s|
    ensures c !in s[..i]
    ensures i < |s| ==> s[i] == c
    ensures i == |s| <==> c !in s
  {
    if s == [] then 0
    else if s[0] == c then 0
    else
      assert s == [s[0]] + s[1..];
      1 + Find(s[1..], c)
  }

  /** Python's `s.split(c)` for a one-character separator. */
  function SplitOn(s: string, c: char): (r: seq<string>)
    ensures |r| >= 1
    ensures r[0] == s[..Find(s, c)]
    ensures forall k :: 0 <= k < |r| ==> c !in r[k]
    decreases |s|
  {
    var i := Find(s, c);
    if i == |s| then [s] else [s[..i]] + SplitOn(s[i + 1..], c)
  }

  /** Python's `sep.join(parts)`. */
  function Join(parts: seq<string>, sep: string): string {
    if |parts| == 0 then ""
    else if |parts| == 1 then parts[0]
    else parts[0] + sep + Join(parts[1..], sep)
  }

  /** A join of pieces free of `c` with a separator free of `c` is free of `c`. */
  lemma {:induction false} JoinFree(parts: seq<string>, sep: string, c: char)
    requires c !in sep
    requires forall k :: 0 <= k < |parts| ==> c !in parts[k]
    ensures c !in Join(parts, sep)
    decreases |parts|
  {
    if |parts| > 1 {
      JoinFree(parts[1..], sep, c);
    }
  }

  /** Length of the leading run of non-whitespace characters. */
  function WordLength(s: string): (n: nat)
    ensures n <= |s|
    ensures forall i :: 0 <= i < n ==> !IsSpace(s[i])
    ensures n < |s| ==> IsSpace(s[n])
  {
    if s == [] || IsSpace(s[0]) then 0 else 1 + WordLength(s[1..])
  }

  /** Python's `s.split()`: the maximal runs of non-whitespace characters, in order. */
  function Words(s: string): (r: seq<string>)
    ensures forall k :: 0 <= k < |r| ==> IsWord(r[k])
    decreases |s|
  {
    var n := LeadLength(s, Whitespace);
    if n == |s| then []
    else
      var t := s[n..];
      var m := WordLength(t);
      [t[..m]] + Words(t[m..])
  }

  /** Python's `s.replace(from, to)` for single characters. */
  function ReplaceChar(s: string, from: char, to: char): (r: string)
    ensures |r| == |s|
    ensures forall i :: 0 <= i < |s| ==> r[i] == if s[i] == from then to else s[i]
    ensures from !in s ==> r == s
  {
    if s == [] then [] else [if s[0] == from then to else s[0]] + ReplaceChar(s[1..], from, to)
  }

  /** `replace` works piece by piece. */
  lemma {:induction false} ReplaceConcat(a: string, b: string, from: char, to: char)
    ensures ReplaceChar(a + b, from, to) == ReplaceChar(a, from, to) + ReplaceChar(b, from, to)
    decreases |a|
  {
    if a == [] {
      assert a + b == b;
    } else {
      assert (a + b)[1..] == a[1..] + b;
      ReplaceConcat(a[1..], b, from, to);
    }
  }

  /** Replacing a character the pieces do not hold only changes the separator. */
  lemma {:induction false} ReplaceJoin(parts: seq<string>, sep: string, from: char, to: char)
    requires forall k :: 0 <= k < |parts| ==> from !in parts[k]
    ensures ReplaceChar(Join(parts, sep), from, to) == Join(parts, ReplaceChar(sep, from, to))
    decreases |parts|
  {
    if |parts| > 1 {
      var rest := Join(parts[1..], sep);
      ReplaceJoin(parts[1..], sep, from, to);
      ReplaceConcat(parts[0] + sep, rest, from, to);
      ReplaceConcat(parts[0], sep, from, to);
    }
  }

  /** Python's `s.replace(c, "")`. */
  function RemoveChar(s: string, c: char): (r: string)
    ensures c !in r
    ensures c !in s ==> r == s
    ensures |r| <= |s|
  {
    if s == [] then []
    else if s[0] == c then RemoveChar(s[1..], c)
    else
      assert s == [s[0]] + s[1..];
      [s[0]] + RemoveChar(s[1..], c)
  }

  lemma {:induction false} RemoveCharConcat(a: string, b: string, c: char)
    ensures RemoveChar(a + b, c) == RemoveChar(a, c) + RemoveChar(b, c)
    decreases |a|
  {
    if a == [] {
      assert a + b == b;
    } else {
      assert (a + b)[1..] == a[1..] + b;
      RemoveCharConcat(a[1..], b, c);
    }
  }

  /** Splitting on `c` and joining with `c` gives back the string. */
  lemma {:induction false} JoinSplitOn(s: string, c: char)
    ensures Join(SplitOn(s, c), [c]) == s
    decreases |s|
  {
    var i := Find(s, c);
    if i < |s| {
      var head, tail := s[..i], s[i + 1..];
      var rest := SplitOn(tail, c);
      SplitOnStep(s, c);
      JoinOfCons(head, rest, [c]);
      JoinSplitOn(tail, c);
      Reassemble(s, i);
    }
  }

  /** One step of `SplitOn` at the first occurrence of `c`. */
  lemma SplitOnStep(s: string, c: char)
    requires Find(s, c) < |s|
    ensures SplitOn(s, c) == [s[..Find(s, c)]] + SplitOn(s[Find(s, c) + 1..], c)
  {
  }

  lemma Reassemble(s: string, i: nat)
    requires i < |s|
    ensures s[..i] + [s[i]] + s[i + 1..] == s
  {
    assert forall k :: 0 <= k < |s| ==> (s[..i] + [s[i]] + s[i + 1..])[k] == s[k];
  }

  lemma JoinOfCons(head: string, rest: seq<string>, sep: string)
    requires |rest| >= 1
    ensures Join([head] + rest, sep) == head + sep + Join(rest, sep)
  {
    var parts := [head] + rest;
    assert parts[0] == head && parts[1..] == rest;
  }

  /** Joining pieces free of `c` with `c` and splitting on `c` gives back the pieces. */
  lemma {:induction false} SplitOnJoin(parts: seq<string>, c: char)
    requires |parts| >= 1
    requires forall k :: 0 <= k < |parts| ==> c !in parts[k]
    ensures SplitOn(Join(parts, [c]), c) == parts
    decreases |parts|
  {
    var head := parts[0];
    if |parts| > 1 {
      var tail := parts[1..];
      assert parts == [head] + tail;
      var rest := Join(tail, [c]);
      JoinOfCons(head, tail, [c]);
      var s := head + [c] + rest;
      FindAfterFree(head, rest, c);
      assert s[..|head|] == head;
      assert s[|head| + 1..] == rest;
      assert SplitOn(s, c) == [head] + SplitOn(rest, c);
      SplitOnJoin(tail, c);
    } else {
      assert Find(head, c) == |head|;
      assert head[..|head|] == head;
    }
  }

  lemma FindAfterFree(a: string, b: string, c: char)
    requires c !in a
    ensures Find(a + [c] + b, c) == |a|
  {
    var s := a + [c] + b;
    assert s[|a|] == c;
    assert s[..|a|] == a;
  }

  /** `s.split(c)` has one piece more than `s` has occurrences of `c`. */
  lemma {:induction false} SplitOnCount(s: string, c: char)
    ensures |SplitOn(s, c)| == multiset(s)[c] + 1
    decreases |s|
  {
    var i := Find(s, c);
    if i == |s| {
      assert c !in multiset(s);
    } else {
      var head, tail := s[..i], s[i + 1..];
      SplitOnStep(s, c);
      SplitOnCount(tail, c);
      Reassemble(s, i);
      MultisetCount(head, tail, c);
    }
  }

  lemma MultisetCount(head: string, tail: string, c: char)
    requires c !in head
    ensures multiset(head + [c] + tail)[c] == multiset(tail)[c] + 1
  {
    assert multiset(head + [c] + tail) == multiset(head) + multiset([c]) + multiset(tail);
    assert c !in multiset(head);
  }

  /** Words joined by a separator of whitespace split back into the same words. */
  lemma {:induction false} WordsOfJoin(ws: seq<string>, sep: string)
    requires forall k :: 0 <= k < |ws| ==> IsWord(ws[k])
    requires sep != [] && AllSpace(sep)
    ensures Words(Join(ws, sep)) == ws
    decreases |ws|
  {
    if |ws| == 0 {
      assert Join(ws, sep) == "";
      assert LeadLength("", Whitespace) == 0;
    } else if |ws| == 1 {
      assert Join(ws, sep) == ws[0];
      WordsSingle(ws[0]);
    } else {
      var tail := ws[1..];
      var rest := Join(tail, sep);
      assert Join(ws, sep) == ws[0] + sep + rest;
      WordsSeparated(ws[0], sep, rest);
      AllWordsTail(ws);
      WordsOfJoin(tail, sep);
      assert ws == [ws[0]] + tail;
    }
  }

  lemma AllWordsTail(ws: seq<string>)
    requires |ws| >= 1
    requires forall k :: 0 <= k < |ws| ==> IsWord(ws[k])
    ensures forall k :: 0 <= k < |ws| - 1 ==> IsWord(ws[1..][k])
  {
  }

  lemma WordsSingle(w: string)
    requires IsWord(w)
    ensures Words(w) == [w]
  {
    WordsCons(w, "");
    assert w + "" == w;
    assert LeadLength("", Whitespace) == 0;
  }

  lemma WordsSeparated(w: string, sep: string, rest: string)
    requires IsWord(w) && sep != [] && AllSpace(sep)
    ensures Words(w + sep + rest) == [w] + Words(rest)
  {
    var spaced := sep + rest;
    assert w + sep + rest == w + spaced;
    assert spaced[0] == sep[0];
    WordsCons(w, spaced);
    WordsSkipGap(sep, rest);
  }

  /** A word followed by whitespace (or nothing) is split off as the first word. */
  lemma WordsCons(w: string, rest: string)
    requires IsWord(w)
    requires rest != [] ==> IsSpace(rest[0])
    ensures Words(w + rest) == [w] + Words(rest)
  {
    var s := w + rest;
    assert s[0] == w[0];
    assert LeadLength(s, Whitespace) == 0;
    WordLengthOf(w, rest);
    assert s[..|w|] == w;
    assert s[|w|..] == rest;
  }

  lemma {:induction false} WordLengthOf(w: string, rest: string)
    requires NoSpace(w)
    requires rest != [] ==> IsSpace(rest[0])
    ensures WordLength(w + rest) == |w|
    decreases |w|
  {
    if w != [] {
      assert (w + rest)[1..] == w[1..] + rest;
      WordLengthOf(w[1..], rest);
    } else {
      assert w + rest == rest;
    }
  }

  /** The words of a text free of `c` are free of `c`. */
  lemma {:induction false} WordsFree(s: string, c: char)
    requires c !in s
    ensures forall k :: 0 <= k < |Words(s)| ==> c !in Words(s)[k]
    decreases |s|
  {
    var n := LeadLength(s, Whitespace);
    if n < |s| {
      var t := s[n..];
      var m := WordLength(t);
      FreeSlice(s, c, n, |s|);
      FreeSlice(t, c, 0, m);
      FreeSlice(t, c, m, |t|);
      var rest := Words(t[m..]);
      WordsFree(t[m..], c);
      GapsStep(s);
      forall k | 0 <= k < |Words(s)|
        ensures c !in Words(s)[k]
      {
        if k > 0 {
          assert Words(s)[k] == rest[k - 1];
        }
      }
    }
  }

  /** A slice of a text free of `c` is free of `c`. */
  lemma FreeSlice(s: string, c: char, i: nat, j: nat)
    requires c !in s && i <= j <= |s|
    ensures c !in s[i..j]
  {
    assert forall k :: 0 <= k < j - i ==> s[i..j][k] == s[i + k];
  }

  /** Text made of whitespace only. */
  predicate AllSpace(g: string) {
    forall i :: 0 <= i < |g| ==> IsSpace(g[i])
  }

  /** Leading whitespace is skipped by `split()`. */
  lemma {:induction false} LeadLengthAppend(g: string, t: string)
    requires AllSpace(g)
    ensures LeadLength(g + t, Whitespace) == |g| + LeadLength(t, Whitespace)
    decreases |g|
  {
    if g != [] {
      assert (g + t)[1..] == g[1..] + t;
      assert (g + t)[0] == g[0];
      LeadLengthAppend(g[1..], t);
    } else {
      assert g + t == t;
    }
  }

  lemma {:induction false} WordsSkipGap(g: string, t: string)
    requires AllSpace(g)
    ensures Words(g + t) == Words(t)
  {
    LeadLengthAppend(g, t);
    var n := LeadLength(t, Whitespace);
    assert (g + t)[|g| + n..] == t[n..];
    WordsSame(g + t, t);
  }

  lemma {:induction false} WordsSame(u: string, t: string)
    requires u[LeadLength(u, Whitespace)..] == t[LeadLength(t, Whitespace)..]
    ensures Words(u) == Words(t)
  {
    WordsUnfold(u);
    WordsUnfold(t);
  }

  /** `split()` after the leading whitespace: the first word and the rest. */
  function WordsAfter(t: string): seq<string> {
    if t == [] then [] else [t[..WordLength(t)]] + Words(t[WordLength(t)..])
  }

  lemma {:induction false} WordsUnfold(s: string)
    ensures Words(s) == WordsAfter(s[LeadLength(s, Whitespace)..])
  {
  }

  /** Whitespace alone has no words. */
  lemma {:induction false} WordsOfSpace(g: string)
    requires AllSpace(g)
    ensures Words(g) == []
  {
  }

  /** The words `ws` laid out between gaps: `gaps[0] ws[0] gaps[1] … ws[n-1] gaps[n]`. */
  function Interleave(gaps: seq<string>, ws: seq<string>): string
    requires |gaps| == |ws| + 1
    decreases |ws|
  {
    if ws == [] then gaps[0] else gaps[0] + ws[0] + Interleave(gaps[1..], ws[1..])
  }

  /** Gaps `split()` separates at: whitespace only, and non-empty between two
      words; the gaps at either end may be empty. */
  predicate Separating(gaps: seq<string>, n: nat) {
    && |gaps| == n + 1
    && (forall k :: 0 <= k < |gaps| ==> AllSpace(gaps[k]))
    && (forall k :: 0 < k < n ==> gaps[k] != [])
  }

  /** Words laid out between separating gaps split back into the same words. */
  lemma {:induction false} WordsOfInterleave(gaps: seq<string>, ws: seq<string>)
    requires Separating(gaps, |ws|)
    requires forall k :: 0 <= k < |ws| ==> IsWord(ws[k])
    ensures Words(Interleave(gaps, ws)) == ws
    decreases |ws|
  {
    if ws == [] {
      WordsOfSpace(gaps[0]);
    } else {
      var tail := ws[1..];
      var rest := Interleave(gaps[1..], tail);
      SeparatingTail(gaps, |ws|);
      AllWordsTail(ws);
      WordsOfInterleave(gaps[1..], tail);
      InterleaveLead(gaps[1..], tail);
      WordsAfterGap(gaps[0], ws[0], rest);
      assert Interleave(gaps, ws) == gaps[0] + (ws[0] + rest);
      assert ws == [ws[0]] + tail;
    }
  }

  lemma {:induction false} SeparatingTail(gaps: seq<string>, n: nat)
    requires Separating(gaps, n) && n >= 1
    ensures Separating(gaps[1..], n - 1)
    ensures n > 1 ==> gaps[1..][0] != []
  {
    assert forall k :: 0 <= k < n ==> gaps[1..][k] == gaps[k + 1];
  }

  /** A gap, a word, then text that starts with whitespace (or is empty). */
  lemma {:induction false} WordsAfterGap(g: string, w: string, rest: string)
    requires AllSpace(g) && IsWord(w)
    requires rest != [] ==> IsSpace(rest[0])
    ensures Words(g + (w + rest)) == [w] + Words(rest)
  {
    WordsCons(w, rest);
    WordsSkipGap(g, w + rest);
  }

  /** A layout whose first gap is whitespace, and non-empty when a word
      follows, starts with whitespace (or is empty). */
  lemma {:induction false} InterleaveLead(gaps: seq<string>, ws: seq<string>)
    requires |gaps| == |ws| + 1 && AllSpace(gaps[0])
    requires ws != [] ==> gaps[0] != []
    ensures var r := Interleave(gaps, ws); r != [] ==> IsSpace(r[0])
  {
    if ws != [] {
      assert (gaps[0] + ws[0] + Interleave(gaps[1..], ws[1..]))[0] == gaps[0][0];
    }
  }

  /** The gaps between the words of `s`. */
  function Gaps(s: string): (gaps: seq<string>)
    ensures |gaps| == |Words(s)| + 1
    ensures gaps[0] != [] || s == [] || !IsSpace(s[0])
    decreases |s|
  {
    var n := LeadLength(s, Whitespace);
    if n == |s| then [s]
    else
      var t := s[n..];
      var m := WordLength(t);
      [s[..n]] + Gaps(t[m..])
  }

  /** Every text is its words laid out between separating gaps; with
      `WordsOfInterleave` this makes `Words` the maximal runs of
      non-whitespace characters, in order. */
  lemma {:induction false} WordsDecompose(s: string)
    ensures Separating(Gaps(s), |Words(s)|)
    ensures Interleave(Gaps(s), Words(s)) == s
    decreases |s|
  {
    var n := LeadLength(s, Whitespace);
    if n < |s| {
      var t := s[n..];
      var rest := t[WordLength(t)..];
      WordsDecompose(rest);
      DecomposeLayout(s);
      DecomposeGaps(s);
    } else {
      assert AllSpace(s);
    }
  }

  /** One word more: the layout of `s` is its lead, its first word and the
      layout of the rest. */
  lemma {:induction false} DecomposeLayout(s: string)
    requires LeadLength(s, Whitespace) < |s|
    requires var t := s[LeadLength(s, Whitespace)..];
      var rest := t[WordLength(t)..];
      Interleave(Gaps(rest), Words(rest)) == rest
    ensures Interleave(Gaps(s), Words(s)) == s
  {
    var n := LeadLength(s, Whitespace);
    var t := s[n..];
    var m := WordLength(t);
    var rest := t[m..];
    GapsStep(s);
    InterleaveCons(s[..n], t[..m], Gaps(rest), Words(rest));
    LeadWordRest(s);
  }

  lemma {:induction false} LeadWordRest(s: string)
    requires LeadLength(s, Whitespace) < |s|
    ensures var n := LeadLength(s, Whitespace);
      var t := s[n..];
      var m := WordLength(t);
      s == s[..n] + t[..m] + t[m..]
  {
    var n := LeadLength(s, Whitespace);
    var t := s[n..];
    var m := WordLength(t);
    assert t == t[..m] + t[m..];
    assert s == s[..n] + t;
  }

  /** One word more: the gaps of `s` are its lead and the gaps of the rest. */
  lemma {:induction false} DecomposeGaps(s: string)
    requires LeadLength(s, Whitespace) < |s|
    requires var t := s[LeadLength(s, Whitespace)..];
      var rest := t[WordLength(t)..];
      Separating(Gaps(rest), |Words(rest)|)
    ensures Separating(Gaps(s), |Words(s)|)
  {
    var n := LeadLength(s, Whitespace);
    var t := s[n..];
    var m := WordLength(t);
    var rest := t[m..];
    GapsStep(s);
    GapsAfterWord(t);
    assert AllSpace(s[..n]);
    SeparatingCons(s[..n], Gaps(rest), |Words(rest)|);
  }

  /** After the first word, the next gap is empty only at the end. */
  lemma {:induction false} GapsAfterWord(t: string)
    ensures var rest := t[WordLength(t)..];
      Words(rest) != [] ==> Gaps(rest)[0] != []
  {
    var rest := t[WordLength(t)..];
    if Words(rest) != [] {
      assert rest != [];
      assert IsSpace(rest[0]);
    }
  }

  lemma {:induction false} GapsStep(s: string)
    requires LeadLength(s, Whitespace) < |s|
    ensures var n := LeadLength(s, Whitespace);
      var t := s[n..];
      var m := WordLength(t);
      && Gaps(s) == [s[..n]] + Gaps(t[m..])
      && Words(s) == [t[..m]] + Words(t[m..])
  {
  }

  lemma {:induction false} InterleaveCons(g: string, w: string, gaps: seq<string>, ws: seq<string>)
    requires |gaps| == |ws| + 1
    ensures Interleave([g] + gaps, [w] + ws) == g + w + Interleave(gaps, ws)
  {
    assert ([g] + gaps)[1..] == gaps && ([w] + ws)[1..] == ws;
  }

  lemma {:induction false} SeparatingCons(g: string, gaps: seq<string>, n: nat)
    requires AllSpace(g) && Separating(gaps, n)
    requires n > 0 ==> gaps[0] != []
    ensures Separating([g] + gaps, n + 1)
  {
    var all := [g] + gaps;
    assert forall k :: 0 < k < |all| ==> all[k] == gaps[k - 1];
  }
}
