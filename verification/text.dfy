/** The pieces of Rust's standard library the readers and writers of src/io
    rely on, over Dafny strings: `str::split_whitespace`, `BufRead::lines`,
    `to_string` of integers and `str::parse` into `usize` and `i32`. Each
    comes with the rendering it inverts. */
module Text {
  import opened Results
  import opened Types
  import opened SeqUtil

  // ---------------------------------------------------------------------
  // Words

  /** Unicode White_Space, the set `char::is_whitespace` and therefore
      `split_whitespace` use. */
  predicate IsSpace(c: char)
  {
    var n := c as int;
    (9 <= n <= 13) || n == 0x20 || n == 0x85 || n == 0xA0 || n == 0x1680
    || (0x2000 <= n <= 0x200A) || n == 0x2028 || n == 0x2029 || n == 0x202F
    || n == 0x205F || n == 0x3000
  }

  /** A word as `split_whitespace` yields it: non-empty, without whitespace. */
  predicate IsWord(w: string)
  {
    |w| > 0 && forall i :: 0 <= i < |w| ==> !IsSpace(w[i])
  }

  /** Length of the longest prefix without whitespace. */
  function WordLength(s: string): (n: nat)
    ensures n <= |s|
    ensures forall i :: 0 <= i < n ==> !IsSpace(s[i])
    ensures n < |s| ==> IsSpace(s[n])
  {
    if |s| == 0 || IsSpace(s[0]) then 0 else 1 + WordLength(s[1..])
  }

  /** `split_whitespace`: the maximal runs of non-whitespace characters, in
      order; leading, trailing and repeated whitespace yields nothing. */
  function Words(s: string): (ws: seq<string>)
    ensures forall i :: 0 <= i < |ws| ==> IsWord(ws[i])
    decreases |s|
  {
    if |s| == 0 then []
    else if IsSpace(s[0]) then Words(s[1..])
    else
      var n := WordLength(s);
      [s[..n]] + Words(s[n..])
  }

  /** Words joined by single spaces, the inverse of `Words`. */
  function Unwords(ws: seq<string>): string
    decreases |ws|
  {
    if |ws| == 0 then ""
    else if |ws| == 1 then ws[0]
    else ws[0] + " " + Unwords(ws[1..])
  }

  /** Each word followed by one space, as the solution and proof writers
      emit literals. */
  function Spaced(ws: seq<string>): string
    decreases |ws|
  {
    if |ws| == 0 then "" else ws[0] + " " + Spaced(ws[1..])
  }

  lemma WordLengthOf(s: string, n: nat)
    requires n < |s| && IsSpace(s[n])
    requires forall i :: 0 <= i < n ==> !IsSpace(s[i])
    ensures WordLength(s) == n
  {
  }

  /** A word followed by whitespace is split off as the first word. */
  lemma WordsCons(w: string, c: char, rest: string)
    requires IsWord(w) && IsSpace(c)
    ensures Words(w + [c] + rest) == [w] + Words(rest)
  {
    var s := w + [c] + rest;
    WordLengthOf(s, |w|);
    assert s[..|w|] == w;
    assert s[|w|..][1..] == rest;
  }

  /** A single word is its own split. */
  lemma WordsSingle(w: string)
    requires IsWord(w)
    ensures Words(w) == [w]
  {
    assert w[..|w|] == w;
    assert w[|w|..] == [];
  }

  /** Whitespace alone yields no words. */
  lemma WordsOfSpace(c: char)
    requires IsSpace(c)
    ensures Words([c]) == []
  {
    assert [c][1..] == [];
  }

  /** `Unwords` and `Words` are inverse on word sequences. */
  lemma {:induction false} WordsUnwords(ws: seq<string>)
    requires forall i :: 0 <= i < |ws| ==> IsWord(ws[i])
    ensures Words(Unwords(ws)) == ws
    decreases |ws|
  {
    if |ws| == 1 {
      WordsSingle(ws[0]);
    } else if |ws| > 1 {
      WordsUnwords(ws[1..]);
      WordsCons(ws[0], ' ', Unwords(ws[1..]));
      assert ws[0] + " " + Unwords(ws[1..]) == ws[0] + [' '] + Unwords(ws[1..]);
      assert [ws[0]] + ws[1..] == ws;
    }
  }

  /** Trailing separators do not change the split: `Spaced` inverts `Words`
      as well. */
  lemma {:induction false} WordsSpaced(ws: seq<string>)
    requires forall i :: 0 <= i < |ws| ==> IsWord(ws[i])
    ensures Words(Spaced(ws)) == ws
    decreases |ws|
  {
    if |ws| > 0 {
      WordsSpaced(ws[1..]);
      WordsCons(ws[0], ' ', Spaced(ws[1..]));
      assert ws[0] + " " + Spaced(ws[1..]) == ws[0] + [' '] + Spaced(ws[1..]);
      assert [ws[0]] + ws[1..] == ws;
    }
  }

  /** A word followed by spaced words: the first word, then the others. */
  lemma WordsLabelled(w: string, ws: seq<string>)
    requires IsWord(w) && forall i :: 0 <= i < |ws| ==> IsWord(ws[i])
    ensures Words(w + " " + Spaced(ws)) == [w] + ws
  {
    WordsSpaced(ws);
    WordsCons(w, ' ', Spaced(ws));
    assert w + " " + Spaced(ws) == w + [' '] + Spaced(ws);
  }

  /** Spaced words followed by one more word split back into all of them. */
  lemma {:induction false} WordsSpacedThen(ws: seq<string>, w: string)
    requires IsWord(w) && forall i :: 0 <= i < |ws| ==> IsWord(ws[i])
    ensures Words(Spaced(ws) + w) == ws + [w]
    decreases |ws|
  {
    if |ws| == 0 {
      WordsSingle(w);
      assert Spaced(ws) + w == w;
    } else {
      var tail := Spaced(ws[1..]) + w;
      WordsSpacedThen(ws[1..], w);
      AppendAssoc(ws[0] + " ", Spaced(ws[1..]), w);
      assert ws[0] + " " == ws[0] + [' '];
      WordsCons(ws[0], ' ', tail);
      ConsAppend(ws, [w]);
    }
  }

  // ---------------------------------------------------------------------
  // Lines

  /** Index of the first '\n', or the length when there is none. */
  function LineLength(s: string): (n: nat)
    ensures n <= |s|
    ensures '\n' !in s[..n]
    ensures n < |s| ==> s[n] == '\n'
  {
    if |s| == 0 || s[0] == '\n' then 0 else 1 + LineLength(s[1..])
  }

  /** `lines()` drops a carriage return that precedes the newline. */
  function StripCr(l: string): (r: string)
    ensures |l| > 0 && l[|l| - 1] == '\r' ==> r + "\r" == l
    ensures !(|l| > 0 && l[|l| - 1] == '\r') ==> r == l
  {
    if |l| > 0 && l[|l| - 1] == '\r' then l[..|l| - 1] else l
  }

  /** `BufRead::lines`: the text split at each '\n' with a preceding '\r'
      removed; text after the last '\n' is a final line when non-empty, so
      a trailing newline does not produce an empty line. */
  function Lines(s: string): seq<string>
    decreases |s|
  {
    if |s| == 0 then []
    else
      var n := LineLength(s);
      if n == |s| then [s] else [StripCr(s[..n])] + Lines(s[n + 1..])
  }

  /** A line `Lines` can give back unchanged. */
  predicate IsLine(l: string)
  {
    '\n' !in l && !(|l| > 0 && l[|l| - 1] == '\r')
  }

  /** Each line followed by '\n', as `writeln!` emits them. */
  function Unlines(ls: seq<string>): string
    decreases |ls|
  {
    if |ls| == 0 then "" else ls[0] + "\n" + Unlines(ls[1..])
  }

  lemma {:induction false} SpacedIsLine(ws: seq<string>)
    requires forall i :: 0 <= i < |ws| ==> IsLine(ws[i])
    ensures IsLine(Spaced(ws))
    decreases |ws|
  {
    if |ws| > 0 {
      SpacedIsLine(ws[1..]);
    }
  }

  lemma LabelledIsLine(w: string, ws: seq<string>)
    requires IsLine(w) && forall i :: 0 <= i < |ws| ==> IsLine(ws[i])
    ensures IsLine(w + " " + Spaced(ws))
  {
    SpacedIsLine(ws);
  }

  lemma LineLengthOf(s: string, n: nat)
    requires n < |s| && s[n] == '\n'
    requires '\n' !in s[..n]
    ensures LineLength(s) == n
  {
  }

  /** A line and its newline are split off as the first line. */
  lemma LinesCons(l: string, rest: string)
    requires IsLine(l)
    ensures Lines(l + "\n" + rest) == [l] + Lines(rest)
  {
    var s := l + "\n" + rest;
    LineLengthOf(s, |l|);
    assert s[..|l|] == l;
    assert s[|l| + 1..] == rest;
  }

  /** Text without a newline is one line. */
  lemma LinesSingle(l: string)
    requires |l| > 0 && '\n' !in l
    ensures Lines(l) == [l]
  {
  }

  /** `Lines` undoes `Unlines`, whatever text follows the last newline. */
  lemma {:induction false} LinesUnlines(ls: seq<string>, rest: string)
    requires forall i :: 0 <= i < |ls| ==> IsLine(ls[i])
    ensures Lines(Unlines(ls) + rest) == ls + Lines(rest)
    decreases |ls|
  {
    if |ls| > 0 {
      var tail := Unlines(ls[1..]) + rest;
      var after := Lines(rest);
      LinesUnlines(ls[1..], rest);
      assert Unlines(ls) + rest == ls[0] + "\n" + tail;
      LinesCons(ls[0], tail);
      ConsAppend(ls, after);
    } else {
      assert Unlines(ls) + rest == rest;
      assert ls + Lines(rest) == Lines(rest);
    }
  }

  /** `Lines` undoes `Unlines`. */
  lemma LinesOfUnlines(ls: seq<string>)
    requires forall i :: 0 <= i < |ls| ==> IsLine(ls[i])
    ensures Lines(Unlines(ls)) == ls
  {
    var text := Unlines(ls);
    LinesUnlines(ls, "");
    assert text + "" == text;
    assert ls + Lines("") == ls;
  }

  lemma UnwordsOfThree(a: string, b: string, c: string)
    ensures Unwords([a, b, c]) == a + " " + b + " " + c
  {
    assert [a, b, c][1..] == [b, c];
    assert [b, c][1..] == [c];
    assert Unwords([c]) == c;
    assert Unwords([b, c]) == b + " " + c;
    assert Unwords([a, b, c]) == a + " " + (b + " " + c);
  }

  lemma UnwordsOfTwo(a: string, b: string)
    ensures Unwords([a, b]) == a + " " + b
  {
    assert [a, b][1..] == [b];
  }

  lemma UnlinesOfThree(a: string, b: string, c: string)
    ensures Unlines([a, b, c]) == a + "\n" + b + "\n" + c + "\n"
  {
    assert [a, b, c][1..] == [b, c];
    assert [b, c][1..] == [c];
    assert [c][1..] == [];
    assert Unlines([c]) == c + "\n";
    assert Unlines([b, c]) == b + "\n" + (c + "\n");
    assert Unlines([a, b, c]) == a + "\n" + (b + "\n" + (c + "\n"));
  }

  // ---------------------------------------------------------------------
  // Decimal numbers

  predicate IsDigit(c: char)
  {
    '0' <= c <= '9'
  }

  predicate AllDigits(s: string)
  {
    forall i :: 0 <= i < |s| ==> IsDigit(s[i])
  }

  function DigitValue(c: char): (d: nat)
    requires IsDigit(c)
    ensures d < 10
  {
    c as int - '0' as int
  }

  function Digit(d: nat): (c: char)
    requires d < 10
    ensures IsDigit(c) && DigitValue(c) == d
  {
    ('0' as int + d) as char
  }

  /** The value of a string of decimal digits, most significant first. */
  function DecimalValue(s: string): nat
    requires AllDigits(s)
    decreases |s|
  {
    if |s| == 0 then 0 else DecimalValue(s[..|s| - 1]) * 10 + DigitValue(s[|s| - 1])
  }

  /** `to_string` of a natural number: decimal digits without leading zeros. */
  function NatToString(n: nat): (s: string)
    ensures |s| >= 1 && AllDigits(s) && IsWord(s)
    ensures |s| > 1 ==> s[0] != '0'
  {
    if n < 10 then [Digit(n)] else NatToString(n / 10) + [Digit(n % 10)]
  }

  /** `to_string` of an integer: a minus sign before the digits of a
      negative value. */
  function IntToString(i: int): (s: string)
    ensures IsWord(s) && IsLine(s)
    ensures i < 0 <==> s[0] == '-'
  {
    if i < 0 then "-" + NatToString(-i) else NatToString(i)
  }

  const UsizeMax: nat := 0xffff_ffff_ffff_ffff

  /** `str::parse::<usize>` on a 64-bit target: an optional '+', then at
      least one decimal digit; larger values than `usize::MAX` fail. */
  function ParseUsize(w: string): (r: Result<nat>)
    ensures r.Ok? ==> r.value <= UsizeMax
  {
    var digits := if |w| > 0 && w[0] == '+' then w[1..] else w;
    if |digits| == 0 || !AllDigits(digits) then Err("invalid digit")
    else if DecimalValue(digits) > UsizeMax then Err("number too large")
    else Ok(DecimalValue(digits))
  }

  /** `str::parse::<i32>`: an optional sign, then at least one decimal
      digit; values outside the 32-bit range fail. */
  function ParseI32(w: string): (r: Result<int>)
    ensures r.Ok? ==> I32Min <= r.value <= I32Max
  {
    var negative := |w| > 0 && w[0] == '-';
    var digits := if |w| > 0 && (w[0] == '+' || w[0] == '-') then w[1..] else w;
    if |digits| == 0 || !AllDigits(digits) then Err("invalid digit")
    else
      var v: int := if negative then -(DecimalValue(digits) as int) else DecimalValue(digits);
      if v < I32Min || v > I32Max then Err("number out of range") else Ok(v)
  }

  lemma {:induction false} DecimalNatToString(n: nat)
    ensures DecimalValue(NatToString(n)) == n
  {
    var s := NatToString(n);
    if n < 10 {
      assert s[..|s| - 1] == [];
    } else {
      DecimalNatToString(n / 10);
      assert s[..|s| - 1] == NatToString(n / 10);
    }
  }

  /** Parsing a rendered `usize` gives the number back. */
  lemma ParseUsizeRoundTrip(n: nat)
    requires n <= UsizeMax
    ensures ParseUsize(NatToString(n)) == Ok(n)
  {
    DecimalNatToString(n);
  }

  /** Parsing a rendered `i32` gives the number back. */
  lemma ParseI32RoundTrip(i: int)
    requires I32Min <= i <= I32Max
    ensures ParseI32(IntToString(i)) == Ok(i)
  {
    var w := IntToString(i);
    if i < 0 {
      var m: nat := -i;
      var digits := NatToString(m);
      DecimalNatToString(m);
      assert w == "-" + digits;
      assert w[1..] == digits;
    } else {
      DecimalNatToString(i);
      assert w == NatToString(i);
      assert IsDigit(w[0]);
    }
  }

  /** The words rendering a sequence of integers. */
  function Tokens(xs: seq<int>): (ws: seq<string>)
    ensures |ws| == |xs|
    ensures forall i :: 0 <= i < |xs| ==> ws[i] == IntToString(xs[i])
  {
    seq(|xs|, i requires 0 <= i < |xs| => IntToString(xs[i]))
  }

  lemma TokensTail(xs: seq<int>)
    requires |xs| > 0
    ensures Tokens(xs)[1..] == Tokens(xs[1..])
  {
  }
}
