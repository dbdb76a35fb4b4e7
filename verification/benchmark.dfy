/** The sort key of a group directory in the benchmark driver
    (tests/benchmark.py): `dir_key`, with the `str.strip`, `split('-')` and
    `int()` it is built from. */
module Benchmark {
  import opened Results
  import opened Text
  import opened SeqUtil

  type Name = string

  // ---------------------------------------------------------------------
  // Stripping characters from both ends

  predicate AllDropped(s: string, drop: char -> bool)
  {
    forall i :: 0 <= i < |s| ==> drop(s[i])
  }

  /** The leading run of characters `drop` holds for, removed: the longest
      suffix that does not start with one. */
  function StripStart(s: string, drop: char -> bool): (r: string)
    ensures |r| <= |s| && r == s[|s| - |r|..]
    ensures AllDropped(s[..|s| - |r|], drop)
    ensures |r| > 0 ==> !drop(r[0])
    decreases |s|
  {
    if |s| > 0 && drop(s[0]) then StripStart(s[1..], drop) else s
  }

  /** The trailing run of characters `drop` holds for, removed: the longest
      prefix that does not end with one. */
  function StripEnd(s: string, drop: char -> bool): (r: string)
    ensures |r| <= |s| && r == s[..|r|]
    ensures AllDropped(s[|r|..], drop)
    ensures |r| > 0 ==> !drop(r[|r| - 1])
    decreases |s|
  {
    if |s| > 0 && drop(s[|s| - 1]) then StripEnd(s[..|s| - 1], drop) else s
  }

  /** Python's `str.strip`: both ends. */
  function StripBoth(s: string, drop: char -> bool): string
  {
    StripEnd(StripStart(s, drop), drop)
  }

  /** A dropped run before a kept character goes and nothing else does. */
  lemma {:induction false} StripStartAfter(a: string, m: string, drop: char -> bool)
    requires AllDropped(a, drop) && |m| > 0 && !drop(m[0])
    ensures StripStart(a + m, drop) == m
    decreases |a|
  {
    if |a| > 0 {
      TailOfAppend(a, m);
      StripStartAfter(a[1..], m, drop);
    } else {
      EmptyAppend(a, m);
    }
  }

  /** Trailing characters after a kept one are stripped only within the tail. */
  lemma {:induction false} StripEndAfter(x: string, y: string, drop: char -> bool)
    requires |x| > 0 && !drop(x[|x| - 1])
    ensures StripEnd(x + y, drop) == x + StripEnd(y, drop)
    decreases |y|
  {
    if |y| == 0 {
      EmptyAppend(y, x);
      EmptyAppend(StripEnd(y, drop), x);
    } else {
      var s := x + y;
      assert s[|s| - 1] == y[|y| - 1];
      if drop(y[|y| - 1]) {
        assert s[..|s| - 1] == x + y[..|y| - 1];
        StripEndAfter(x, y[..|y| - 1], drop);
      }
    }
  }

  /** A run of dropped characters strips to nothing. */
  lemma {:induction false} StripEndAll(y: string, drop: char -> bool)
    requires AllDropped(y, drop)
    ensures StripEnd(y, drop) == []
    decreases |y|
  {
    if |y| > 0 {
      StripEndAll(y[..|y| - 1], drop);
    }
  }

  /** A string that starts and ends with kept characters strips to itself. */
  lemma StripKept(s: string, drop: char -> bool)
    requires |s| > 0 && !drop(s[0]) && !drop(s[|s| - 1])
    ensures StripBoth(s, drop) == s
  {
  }

  /** Dropped runs around a string that starts and ends with kept characters
      go, and nothing else does. */
  lemma StripAround(a: string, m: string, b: string, drop: char -> bool)
    requires AllDropped(a, drop) && AllDropped(b, drop)
    requires |m| > 0 && !drop(m[0]) && !drop(m[|m| - 1])
    ensures StripBoth(a + m + b, drop) == m
  {
    AppendAssoc(a, m, b);
    assert StripStart(a + (m + b), drop) == m + b by {
      assert (m + b)[0] == m[0];
      StripStartAfter(a, m + b, drop);
    }
    StripEndAfter(m, b, drop);
    StripEndAll(b, drop);
    EmptyAppend(StripEnd(b, drop), m);
  }

  // ---------------------------------------------------------------------
  // Python's int()

  /** The whitespace `int()` skips at both ends: the ASCII space, `\t`,
      `\n`, `\v`, `\f` and `\r`, and the non-ASCII characters `str.isspace`
      accepts. The ASCII separators U+001C to U+001F count as whitespace
      for `str.isspace` but not for `int()`. */
  predicate PySpace(c: char)
  {
    var u := c as int;
    (9 <= u <= 13) || u == 32 || u == 0x85 || u == 0xa0 || u == 0x1680
    || (0x2000 <= u <= 0x200a) || u == 0x2028 || u == 0x2029 || u == 0x202f
    || u == 0x205f || u == 0x3000
  }

  /** Decimal digits in which single underscores may separate two digits,
      the literal syntax `int()` accepts after an optional sign: a digit
      ends the run, and before it comes either nothing, a shorter run, or
      an underscore after a shorter run. */
  predicate DigitRun(s: string)
    decreases |s|
  {
    |s| > 0 && IsDigit(s[|s| - 1]) &&
    (|s| == 1 ||
     if s[|s| - 2] == '_' then |s| > 2 && DigitRun(s[..|s| - 2]) else DigitRun(s[..|s| - 1]))
  }

  lemma {:induction false} DigitRunPlain(s: string)
    requires |s| > 0 && AllDigits(s)
    ensures DigitRun(s)
    decreases |s|
  {
    if |s| > 1 {
      assert IsDigit(s[|s| - 2]);
      DigitRunPlain(s[..|s| - 1]);
    }
  }

  /** The digits of a run, underscores left out. */
  function DigitsOf(s: string): (d: string)
    ensures AllDigits(d)
    decreases |s|
  {
    if |s| == 0 then []
    else DigitsOf(s[..|s| - 1]) + (if IsDigit(s[|s| - 1]) then [s[|s| - 1]] else [])
  }

  /** A run of plain digits keeps all of them. */
  lemma {:induction false} DigitsOfPlain(s: string)
    requires AllDigits(s)
    ensures DigitsOf(s) == s
    decreases |s|
  {
    if |s| > 0 {
      DigitsOfPlain(s[..|s| - 1]);
      InitLast(s);
    }
  }

  /** A run of digits and underscores read as a number. */
  function ParseRun(s: string): Result<nat>
  {
    if DigitRun(s) then Ok(DecimalValue(DigitsOf(s))) else Err("invalid literal for int() with base 10")
  }

  /** An optional sign before a run. */
  function ParseSigned(t: string): Result<int>
  {
    var negative := |t| > 0 && t[0] == '-';
    var body := if |t| > 0 && (t[0] == '+' || t[0] == '-') then t[1..] else t;
    match ParseRun(body)
    case Ok(n) => if negative then Ok(-(n as int)) else Ok(n)
    case Err(msg) => Err(msg)
  }

  /** Python's `int()` in base 10: whitespace at both ends is skipped, then
      an optional sign and a run of ASCII decimal digits in which single
      underscores may separate two digits; anything else raises
      `ValueError`. Unbounded. */
  function ParseInt(w: string): Result<int>
  {
    ParseSigned(StripBoth(w, PySpace))
  }

  predicate NoDigit(s: string)
  {
    forall i :: 0 <= i < |s| ==> !IsDigit(s[i])
  }

  lemma NoDigitSlice(s: string, i: nat, j: nat)
    requires NoDigit(s) && i <= j <= |s|
    ensures NoDigit(s[i..j])
  {
    assert forall k :: 0 <= k < j - i ==> s[i..j][k] == s[i + k];
  }

  /** `int()` raises on a string without a digit. */
  lemma ParseIntNoDigit(w: string)
    requires NoDigit(w)
    ensures ParseInt(w).Err?
  {
    var s := StripStart(w, PySpace);
    NoDigitSlice(w, |w| - |s|, |w|);
    var t := StripEnd(s, PySpace);
    NoDigitSlice(s, 0, |t|);
    if |t| > 0 {
      NoDigitSlice(t, 1, |t|);
      assert |t[1..]| > 0 ==> !IsDigit(t[1..][|t| - 2]);
      assert !IsDigit(t[|t| - 1]);
    }
  }

  /** `int("")` raises. */
  lemma ParseIntEmpty()
    ensures ParseInt([]).Err?
  {
    ParseIntNoDigit([]);
  }

  /** A rendered integer starts and ends with a sign or a digit. */
  lemma RenderedEnds(i: int)
    ensures |IntToString(i)| > 0 && !PySpace(IntToString(i)[0])
    ensures !PySpace(IntToString(i)[|IntToString(i)| - 1])
  {
    var w := IntToString(i);
    if i < 0 {
      var m: nat := -i;
      var digits := NatToString(m);
      assert w == "-" + digits;
      assert w[|w| - 1] == digits[|digits| - 1];
      assert IsDigit(digits[|digits| - 1]);
    } else {
      assert IsDigit(w[0]) && IsDigit(w[|w| - 1]);
    }
  }

  /** A run of plain digits reads as its decimal value. */
  lemma ParseRunPlain(s: string)
    requires |s| > 0 && AllDigits(s)
    ensures ParseRun(s) == Ok(DecimalValue(s))
  {
    DigitRunPlain(s);
    DigitsOfPlain(s);
  }

  /** `int()` of plain decimal digits is their value. */
  lemma ParseDigits(w: string)
    requires |w| > 0 && AllDigits(w)
    ensures ParseInt(w) == Ok(DecimalValue(w))
  {
    assert IsDigit(w[0]) && IsDigit(w[|w| - 1]);
    StripKept(w, PySpace);
    ParseRunPlain(w);
    SignedPlain(w, DecimalValue(w));
  }

  lemma SignedPlain(t: string, v: nat)
    requires |t| > 0 && IsDigit(t[0]) && ParseRun(t) == Ok(v)
    ensures ParseSigned(t) == Ok(v)
  {
    assert t[0] != '+' && t[0] != '-';
  }

  lemma SignedValue(t: string, s: string, v: nat)
    requires |t| > 1 && t[0] == '-' && t[1..] == s && ParseRun(s) == Ok(v)
    ensures ParseSigned(t) == Ok(-(v as int))
  {
  }

  /** `int()` of a minus sign before a run that reads as `v`. */
  lemma NegatedRun(w: string, s: string, v: nat)
    requires |w| > 1 && w[0] == '-' && w[1..] == s && ParseRun(s) == Ok(v)
    requires !PySpace(w[|w| - 1])
    ensures ParseInt(w) == Ok(-(v as int))
  {
    StripKept(w, PySpace);
    SignedValue(w, s, v);
  }

  /** `int()` reads back a rendered integer. */
  lemma ParseRendered(i: int)
    ensures ParseInt(IntToString(i)) == Ok(i)
  {
    if i < 0 {
      var m: nat := -i;
      var w, digits := IntToString(i), NatToString(m);
      assert w[0] == '-' && w[1..] == digits;
      assert ParseRun(digits) == Ok(m) by {
        DecimalNatToString(m);
        ParseRunPlain(digits);
      }
      assert !PySpace(w[|w| - 1]) by {
        RenderedEnds(i);
      }
      NegatedRun(w, digits, m);
    } else {
      DecimalNatToString(i);
      ParseDigits(IntToString(i));
    }
  }

  /** `int()` reads back every rendered integer, with any whitespace
      around it. */
  lemma ParseIntRoundTrip(pre: string, i: int, post: string)
    requires AllDropped(pre, PySpace) && AllDropped(post, PySpace)
    ensures ParseInt(pre + IntToString(i) + post) == Ok(i)
  {
    var w := IntToString(i);
    RenderedEnds(i);
    StripAround(pre, w, post, PySpace);
    StripKept(w, PySpace);
    ParseRendered(i);
  }

  /** Underscores group digits: `int("2_0") == 20`. */
  lemma ParseIntUnderscore(w: string)
    requires w == "2_0"
    ensures ParseInt(w) == Ok(20)
  {
    StripKept(w, PySpace);
    assert w[..1] == ['2'];
    assert DigitRun(w);
    UnderscoreDigits(w);
    assert DecimalValue(['2', '0']) == DecimalValue(['2']) * 10;
  }

  /** An ASCII separator is not skipped: `int("\x1c20")` raises. */
  lemma ParseIntSeparator(w: string)
    requires w == ['\U{1c}', '2', '0']
    ensures ParseInt(w).Err?
  {
    StripKept(w, PySpace);
    assert w[..2][..1] == ['\U{1c}'];
    assert !DigitRun(w[..2][..1]);
    assert w[..2] == ['\U{1c}', '2'];
    assert !DigitRun(w);
  }

  lemma UnderscoreDigits(w: string)
    requires w == "2_0"
    ensures DigitsOf(w) == ['2', '0']
  {
    var a, b := w[..1], w[..2];
    assert b[..1] == a && w[..2] == b;
    assert DigitsOf(a) == ['2'];
    assert DigitsOf(b) == ['2'];
  }

  // ---------------------------------------------------------------------
  // Directory keys

  /** The characters `strip('uf')` removes. */
  predicate Stripped(c: char)
  {
    c == 'u' || c == 'f'
  }

  /** `str.strip('uf')`. */
  function Strip(s: string): string
  {
    StripBoth(s, Stripped)
  }

  /** `split('-')[0]`: everything before the first `-`. */
  function BeforeDash(s: string): (r: string)
    ensures |r| <= |s| && r == s[..|r|] && '-' !in r
    ensures |r| < |s| ==> s[|r|] == '-'
    decreases |s|
  {
    if |s| == 0 || s[0] == '-' then [] else [s[0]] + BeforeDash(s[1..])
  }

  /** What precedes the first dash is exactly the dash-free part before it. */
  lemma BeforeDashOf(x: string, y: string)
    requires '-' !in x
    ensures BeforeDash(x + "-" + y) == x
  {
    var s := x + "-" + y;
    var r := BeforeDash(s);
    assert s[|x|] == '-';
    assert forall i :: 0 <= i < |x| ==> s[i] == x[i] && s[i] != '-';
    assert forall i :: 0 <= i < |r| ==> r[i] == s[i] && r[i] != '-';
    assert |r| == |x|;
    assert r == s[..|x|] == x;
  }

  /** Without a dash the whole string is the first part. */
  lemma BeforeDashNone(s: string)
    requires '-' !in s
    ensures BeforeDash(s) == s
  {
    assert forall i :: 0 <= i < |s| ==> s[i] != '-';
  }

  /** `dir_key`: the variable count and whether the group is unsatisfiable. */
  datatype Key = Key(varCount: int, unsat: bool)

  predicate UnsatName(name: Name)
  {
    |name| >= 2 && name[0] == 'u' && name[1] == 'u'
  }

  /** `dir_key(dir)`: unsat iff the name starts with `uu`; the count is
      `int()` of what precedes the first `-` once `u`/`f` are stripped from
      both ends, which raises on anything but a number. */
  function DirKey(name: Name): Result<Key>
  {
    var count :- ParseInt(BeforeDash(Strip(name)));
    Ok(Key(count, UnsatName(name)))
  }

  lemma DigitsNoDash(digits: string)
    requires AllDigits(digits)
    ensures '-' !in digits
  {
    forall i | 0 <= i < |digits|
      ensures digits[i] != '-'
    {
      assert IsDigit(digits[i]);
    }
  }

  /** Stripping leaves a middle part that starts and ends with kept
      characters, and whatever of the tail is not stripped. */
  lemma StripOfName(prefix: string, x: string, rest: string)
    requires AllDropped(prefix, Stripped) && |x| > 0 && !Stripped(x[0]) && !Stripped(x[|x| - 1])
    ensures Strip(prefix + (x + rest)) == x + StripEnd(rest, Stripped)
  {
    assert StripStart(prefix + (x + rest), Stripped) == x + rest by {
      assert (x + rest)[0] == x[0];
      StripStartAfter(prefix, x + rest, Stripped);
    }
    StripEndAfter(x, rest, Stripped);
  }

  lemma UnsatOfName(prefix: string, digits: string, tail: string)
    requires |digits| > 0 && AllDigits(digits)
    ensures UnsatName(prefix + (digits + tail)) <==> |prefix| >= 2 && prefix[0] == 'u' && prefix[1] == 'u'
  {
    var name := prefix + (digits + tail);
    assert IsDigit(digits[0]);
    if |prefix| == 1 {
      assert name[1] == digits[0];
    } else if |prefix| == 0 {
      assert name[0] == digits[0];
    } else {
      assert name[0] == prefix[0] && name[1] == prefix[1];
    }
  }

  /** `int()` of a rendered count on its own. */
  lemma ParseCount(n: nat)
    ensures ParseInt(NatToString(n)) == Ok(n)
  {
    ParseRendered(n);
  }

  /** The naming convention of the corpus, `uf20-91` and `uuf50-218`: a run
      of `u`/`f`, the variable count, a dash and anything after it. Such a
      name keys to its count, and is unsat iff the run starts with `uu`. */
  lemma DirKeyOfName(prefix: string, n: nat, rest: string)
    requires AllDropped(prefix, Stripped)
    ensures DirKey(prefix + NatToString(n) + "-" + rest)
      == Ok(Key(n, |prefix| >= 2 && prefix[0] == 'u' && prefix[1] == 'u'))
  {
    var digits := NatToString(n);
    var x := digits + "-";
    assert x[0] == digits[0] && IsDigit(digits[0]) && x[|x| - 1] == '-';
    AppendAssoc(prefix, digits, "-");
    AppendAssoc(prefix, x, rest);
    StripOfName(prefix, x, rest);
    DigitsNoDash(digits);
    BeforeDashOf(digits, StripEnd(rest, Stripped));
    ParseCount(n);
    UnsatOfName(prefix, digits, "-" + rest);
    AppendAssoc(digits, "-", rest);
  }

  /** A name with no digit raises. */
  lemma NoDigitKeyRaises(name: Name)
    requires NoDigit(name)
    ensures DirKey(name).Err?
  {
    var s := StripStart(name, Stripped);
    NoDigitSlice(name, |name| - |s|, |name|);
    var t := StripEnd(s, Stripped);
    NoDigitSlice(s, 0, |t|);
    var b := BeforeDash(t);
    NoDigitSlice(t, 0, |b|);
    ParseIntNoDigit(b);
  }

  /** A name with no count before its dash raises: `int("")`. */
  lemma DashKeyRaises(prefix: string, rest: string)
    requires AllDropped(prefix, Stripped)
    ensures DirKey(prefix + ("-" + rest)).Err?
  {
    StripOfName(prefix, "-", rest);
    assert BeforeDash("-" + StripEnd(rest, Stripped)) == [];
    ParseIntEmpty();
  }
}
