/** The DRAT proof writer (src/io/drat.rs) in its two formats. The binary
    format writes a step byte, each literal as a variable-byte number and a
    0 byte; the plain format writes one text line per lemma. Each writer is
    paired with a reader of its format, and the round trip is proved. */
module Drat {
  import opened Results
  import opened Types
  import opened Text
  import opened SeqUtil

  type Byte = b: int | 0 <= b < 256

  const U32Max: nat := 0xffff_ffff

  /** `BUF_SIZE`: one byte per started 7-bit group of a `u32`. */
  const BufSize: nat := 32 / 7 + 1

  function Pow128(k: nat): (p: nat)
    ensures p >= 1
  {
    if k == 0 then 1 else 128 * Pow128(k - 1)
  }

  // ---------------------------------------------------------------------
  // Variable-byte numbers

  /** Reference encoding: 7-bit groups, least significant first, every
      byte but the last with its high bit set. */
  function Encode(n: nat): seq<Byte>
    decreases n
  {
    if n < 128 then [n] else [n % 128 + 128] + Encode(n / 128)
  }

  /** The number the low 7 bits of the bytes stand for, little-endian. */
  function GroupValue(bs: seq<Byte>): nat
    decreases |bs|
  {
    if |bs| == 0 then 0 else bs[0] % 128 + 128 * GroupValue(bs[1..])
  }

  /** At least one byte; the high bit is set exactly on the bytes before
      the last. */
  predicate Continued(bs: seq<Byte>)
  {
    |bs| >= 1 && bs[|bs| - 1] < 128 && forall i :: 0 <= i < |bs| - 1 ==> bs[i] >= 128
  }

  /** The encoding has the continuation-bit shape and its groups reassemble
      into the number. */
  lemma {:induction false} EncodeShape(n: nat)
    ensures Continued(Encode(n)) && GroupValue(Encode(n)) == n
    decreases n
  {
    if n >= 128 {
      var t := Encode(n / 128);
      EncodeShape(n / 128);
      assert Encode(n)[1..] == t;
    }
  }

  /** A number below 128^k takes at most k bytes. */
  lemma {:induction false} EncodeLength(n: nat, k: nat)
    requires 1 <= k && n < Pow128(k)
    ensures |Encode(n)| <= k
    decreases k
  {
    if n >= 128 {
      assert Pow128(k) == 128 * Pow128(k - 1);
      EncodeLength(n / 128, k - 1);
    }
  }

  /** Every `u32` fits the `BUF_SIZE` buffer. */
  lemma EncodeFits(n: nat)
    requires n <= U32Max
    ensures 1 <= |Encode(n)| <= BufSize
  {
    assert Pow128(5) == 0x8_0000_0000;
    EncodeLength(n, 5);
  }

  /** One more group of a number that does not fit 7 bits: the written
      prefix grows by its byte, and the buffer has room for the next. */
  lemma EncodeStep(buf: seq<Byte>, len: nat, m: nat)
    requires 1 <= len <= |buf| && m >= 128 && buf[len - 1] == m % 128 + 128
    requires |buf[..len - 1] + Encode(m)| <= BufSize
    ensures buf[..len] + Encode(m / 128) == buf[..len - 1] + Encode(m)
    ensures len < BufSize
  {
    TakeSnoc(buf, len - 1);
    AppendAssoc(buf[..len - 1], [buf[len - 1]], Encode(m / 128));
  }

  /** `var_byte_encode`: writes each group with the high bit set into the
      buffer until the number is used up, then clears the high bit of the
      last byte written. */
  method VarByteEncode(num: nat) returns (bytes: seq<Byte>)
    requires num <= U32Max
    ensures 1 <= |bytes| <= BufSize
    ensures bytes == Encode(num)
  {
    EncodeFits(num);
    var buf: seq<Byte> := seq(BufSize, _ => 0);
    buf := buf[0 := num % 128 + 128];
    var len: nat := 1;
    ghost var m := num;
    var n: nat := num / 128;
    while n != 0
      invariant 1 <= len <= BufSize && |buf| == BufSize
      invariant n == m / 128 && buf[len - 1] == m % 128 + 128
      invariant buf[..len - 1] + Encode(m) == Encode(num)
      decreases n
    {
      EncodeStep(buf, len, m);
      var written := buf[..len];
      buf := buf[len := n % 128 + 128];
      assert buf[..len] == written;
      len := len + 1;
      m := n;
      n := n / 128;
    }
    assert Encode(m) == [m];
    buf := buf[len - 1 := buf[len - 1] % 128];
    bytes := buf[..len];
    assert bytes == buf[..len - 1] + [m];
  }

  /** Reading one variable-byte number: bytes with the high bit set carry
      on, the first byte below 128 ends it. */
  function ReadNumber(bs: seq<Byte>): (r: Result<(nat, seq<Byte>)>)
    ensures r.Ok? ==> |r.value.1| < |bs|
    decreases |bs|
  {
    if |bs| == 0 then Err("proof ends inside a number")
    else if bs[0] < 128 then Ok((bs[0], bs[1..]))
    else
      var p :- ReadNumber(bs[1..]);
      Ok((bs[0] - 128 + 128 * p.0, p.1))
  }

  /** Reading stops exactly after the encoding, whatever follows it. */
  lemma {:induction false} ReadEncoded(n: nat, rest: seq<Byte>)
    ensures ReadNumber(Encode(n) + rest) == Ok((n, rest))
    decreases n
  {
    var bs := Encode(n) + rest;
    if n < 128 {
      assert bs[1..] == rest;
    } else {
      ReadEncoded(n / 128, rest);
      assert bs[1..] == Encode(n / 128) + rest;
    }
  }

  // ---------------------------------------------------------------------
  // Literals

  /** The DRAT code of a literal: 2l for a positive one, 2|l|+1 for the
      rest. */
  function LitCode(lit: int): (u: nat)
    ensures u / 2 == if lit < 0 then -lit else lit
    ensures u % 2 == 0 <==> lit > 0
  {
    if lit > 0 then 2 * lit else -2 * lit + 1
  }

  /** `encode_lit` as src/io/drat.rs computes it: the code in `i32` arithmetic,
      wrapping, then reinterpreted as `u32`, which is the code modulo 2^32. */
  function LitCodeAsWritten(lit: int): (u: nat)
    ensures u <= U32Max
    ensures I32Min < lit <= I32Max ==> u == LitCode(lit)
  {
    LitCode(lit) % 0x1_0000_0000
  }

  /** The bytes `encode_lit` writes; they are those of the code computed
      without overflow for every `i32` literal but `i32::MIN`. */
  function EncodeLitAsWritten(lit: int): (bs: seq<Byte>)
    ensures I32Min < lit <= I32Max ==> bs == EncodeLit(lit)
  {
    Encode(LitCodeAsWritten(lit))
  }

  /** `encode_lit` with the code computed without overflow. */
  function EncodeLit(lit: int): seq<Byte>
  {
    Encode(LitCode(lit))
  }

  /** Computed without overflow, every non-zero literal, `i32::MIN`
      included, reads back from its bytes. */
  lemma EncodeLitReadsBack(lit: int, rest: seq<Byte>)
    requires lit != 0
    ensures ReadNumber(EncodeLit(lit) + rest) == Ok((LitCode(lit), rest))
    ensures DecodeLit(LitCode(lit)) == Ok(lit)
  {
    ReadEncoded(LitCode(lit), rest);
    DecodeLitCode(lit);
  }

  /** The code of a non-zero literal needs at most 5 bytes. */
  lemma LitCodeFits(lit: int)
    requires IsLit(lit)
    ensures LitCode(lit) < Pow128(BufSize) && |EncodeLit(lit)| <= BufSize
  {
    assert Pow128(5) == 0x8_0000_0000;
    EncodeLength(LitCode(lit), 5);
  }

  /** The literal a code names; 0 ends a clause and 1 names none. */
  function DecodeLit(u: nat): (r: Result<Lit>)
    ensures r.Ok? <==> u >= 2
  {
    if u < 2 then Err("code names no literal")
    else if u % 2 == 0 then Ok(u / 2)
    else Ok(-(u / 2))
  }

  lemma DecodeLitCode(lit: int)
    requires lit != 0
    ensures LitCode(lit) >= 2 && DecodeLit(LitCode(lit)) == Ok(lit)
  {
  }

  // ---------------------------------------------------------------------
  // Binary lemmas

  /** 'a' for an addition, 'd' for a deletion. */
  function StepCode(step: ProofStep): Byte
  {
    match step
    case Add => 0x61
    case Delete => 0x64
  }

  function ReadStep(b: Byte): (r: Result<ProofStep>)
    ensures r.Ok? ==> StepCode(r.value) == b
  {
    if b == 0x61 then Ok(Add) else if b == 0x64 then Ok(Delete) else Err("unknown step")
  }

  function EncodeLits(c: Clause): seq<Byte>
    decreases |c|
  {
    if |c| == 0 then [] else EncodeLitAsWritten(c[0]) + EncodeLits(c[1..])
  }

  /** Binary `write_lemma`: the step byte, each literal, a 0 byte. */
  function BinaryLemma(step: ProofStep, clause: Clause): (bs: seq<Byte>)
    ensures |bs| >= 2 && bs[0] == StepCode(step) && bs[|bs| - 1] == 0
  {
    [StepCode(step)] + EncodeLits(clause) + [0]
  }

  /** Literals up to the terminating 0 code. */
  function ReadLits(bs: seq<Byte>): (r: Result<(Clause, seq<Byte>)>)
    ensures r.Ok? ==> |r.value.1| < |bs|
    decreases |bs|
  {
    var p :- ReadNumber(bs);
    if p.0 == 0 then Ok(([], p.1))
    else
      var lit :- DecodeLit(p.0);
      var q :- ReadLits(p.1);
      Ok(([lit] + q.0, q.1))
  }

  function ReadBinaryLemma(bs: seq<Byte>): (r: Result<((ProofStep, Clause), seq<Byte>)>)
    ensures r.Ok? ==> |r.value.1| < |bs|
  {
    if |bs| == 0 then Err("proof ends before a step")
    else
      var step :- ReadStep(bs[0]);
      var q :- ReadLits(bs[1..]);
      Ok(((step, q.0), q.1))
  }

  predicate NonZeroLits(c: Clause)
  {
    forall i :: 0 <= i < |c| ==> c[i] != 0
  }

  /** The literals `encode_lit` writes readably: non-zero `i32` values
      other than `i32::MIN`. */
  predicate CodableLits(c: Clause)
  {
    forall i :: 0 <= i < |c| ==> IsLit(c[i]) && c[i] != I32Min
  }

  lemma {:induction false} ReadEncodedLits(c: Clause, rest: seq<Byte>)
    requires CodableLits(c)
    ensures ReadLits(EncodeLits(c) + [0] + rest) == Ok((c, rest))
    decreases |c|
  {
    if |c| == 0 {
      ReadEncoded(0, rest);
      assert EncodeLits(c) + [0] + rest == Encode(0) + rest;
    } else {
      var lit, more := c[0], c[1..];
      var tail := EncodeLits(more) + [0] + rest;
      assert CodableLits(more) by {
        forall i | 0 <= i < |more|
          ensures IsLit(more[i]) && more[i] != I32Min
        {
          assert more[i] == c[i + 1];
        }
      }
      assert EncodeLits(c) + [0] + rest == EncodeLit(lit) + tail by {
        assert EncodeLitAsWritten(lit) == EncodeLit(lit);
        AppendAssoc(EncodeLit(lit), EncodeLits(more), [0]);
        AppendAssoc(EncodeLit(lit), EncodeLits(more) + [0], rest);
      }
      EncodeLitReadsBack(lit, tail);
      ReadEncodedLits(more, rest);
      HeadTail(c);
    }
  }

  /** A binary lemma reads back as the step and clause it was written from. */
  lemma BinaryLemmaRoundTrip(step: ProofStep, clause: Clause, rest: seq<Byte>)
    requires CodableLits(clause)
    ensures ReadBinaryLemma(BinaryLemma(step, clause) + rest) == Ok(((step, clause), rest))
  {
    var bs := BinaryLemma(step, clause) + rest;
    ReadEncodedLits(clause, rest);
    assert bs[1..] == EncodeLits(clause) + [0] + rest;
  }

  // ---------------------------------------------------------------------
  // Plain lemmas

  /** Plain `write_lemma` without its newline: "d " for a deletion, each
      literal followed by a space, then 0. */
  function PlainLine(step: ProofStep, clause: Clause): string
  {
    (if step == Delete then "d " else "") + Spaced(Tokens(clause)) + "0"
  }

  /** The literal words of a plain lemma, up to the closing 0. */
  function ReadLitWords(ws: seq<string>): (r: Result<Clause>)
    ensures r.Ok? ==> NonZeroLits(r.value)
    decreases |ws|
  {
    if |ws| == 0 then Err("missing 0")
    else
      var x :- ParseI32(ws[0]);
      if x == 0 then (if |ws| == 1 then Ok([]) else Err("text after 0"))
      else
        var c :- ReadLitWords(ws[1..]);
        Ok([x] + c)
  }

  function ReadPlainLemma(line: string): Result<(ProofStep, Clause)>
  {
    var ws := Words(line);
    if |ws| > 0 && ws[0] == "d" then
      var c :- ReadLitWords(ws[1..]);
      Ok((Delete, c))
    else
      var c :- ReadLitWords(ws);
      Ok((Add, c))
  }

  predicate ValidLits(c: Clause)
  {
    forall i :: 0 <= i < |c| ==> IsLit(c[i])
  }

  lemma ZeroWord()
    ensures IntToString(0) == "0" && IsWord("0") && ParseI32("0") == Ok(0)
  {
    ParseI32RoundTrip(0);
  }

  lemma {:induction false} ReadTokens(c: Clause)
    requires ValidLits(c)
    ensures ReadLitWords(Tokens(c) + ["0"]) == Ok(c)
    decreases |c|
  {
    var ws := Tokens(c) + ["0"];
    if |c| == 0 {
      ZeroWord();
      EmptyAppend(Tokens(c), ["0"]);
    } else {
      ParseI32RoundTrip(c[0]);
      ReadTokens(c[1..]);
      TailOfAppend(Tokens(c), ["0"]);
      TokensTail(c);
      HeadTail(c);
    }
  }

  /** The words of a plain deletion line. */
  lemma DeleteLineWords(ts: seq<string>, tail: string)
    requires Words(Spaced(ts) + "0") == ts + ["0"] && tail == Spaced(ts) + "0"
    ensures Words("d " + tail) == ["d"] + ts + ["0"]
  {
    ZeroWord();
    assert "d " == "d" + [' '];
    AppendAssoc("d", [' '], tail);
    WordsCons("d", ' ', tail);
    AppendAssoc(["d"], ts, ["0"]);
  }

  /** The words of a plain line: the "d" marker of a deletion, the literals
      and the closing 0; the line holds no line break. */
  lemma PlainLineWords(step: ProofStep, clause: Clause)
    ensures Words(PlainLine(step, clause))
      == (if step == Delete then ["d"] else []) + Tokens(clause) + ["0"]
    ensures IsLine(PlainLine(step, clause))
  {
    var ts := Tokens(clause);
    assert Words(Spaced(ts) + "0") == ts + ["0"] by {
      ZeroWord();
      WordsSpacedThen(ts, "0");
    }
    SpacedIsLine(ts);
    if step == Delete {
      assert PlainLine(step, clause) == "d " + (Spaced(ts) + "0") by {
        AppendAssoc("d ", Spaced(ts), "0");
      }
      DeleteLineWords(ts, Spaced(ts) + "0");
    } else {
      assert PlainLine(step, clause) == Spaced(ts) + "0" by {
        EmptyAppend("", Spaced(ts));
      }
      EmptyAppend([], ts);
    }
  }

  /** No rendered literal reads as the deletion marker. */
  lemma TokensNotMarker(c: Clause)
    ensures |Tokens(c) + ["0"]| > 0 && (Tokens(c) + ["0"])[0] != "d"
  {
    if |c| > 0 {
      var w := IntToString(c[0]);
      assert w[0] == '-' || IsDigit(w[0]);
      assert w != "d";
    }
  }

  /** A plain line reads back as the step and clause it was written from. */
  lemma PlainLemmaRoundTrip(step: ProofStep, clause: Clause)
    requires ValidLits(clause)
    ensures ReadPlainLemma(PlainLine(step, clause)) == Ok((step, clause))
  {
    PlainLineWords(step, clause);
    ReadTokens(clause);
    TokensNotMarker(clause);
    var body := Tokens(clause) + ["0"];
    if step == Delete {
      AppendAssoc(["d"], Tokens(clause), ["0"]);
      ConsTail("d", body);
    } else {
      EmptyAppend([], Tokens(clause));
    }
  }

  // ---------------------------------------------------------------------
  // Proofs

  /** Binary `write_proof`: the lemmas in proof order. */
  function BinaryProof(proof: Proof): seq<Byte>
    decreases |proof|
  {
    if |proof| == 0 then [] else BinaryLemma(proof[0].0, proof[0].1) + BinaryProof(proof[1..])
  }

  /** Plain `write_proof`: one line per lemma, in proof order. */
  function PlainProof(proof: Proof): string
    decreases |proof|
  {
    if |proof| == 0 then "" else PlainLine(proof[0].0, proof[0].1) + "\n" + PlainProof(proof[1..])
  }

  function ReadBinaryProof(bs: seq<Byte>): Result<Proof>
    decreases |bs|
  {
    if |bs| == 0 then Ok([])
    else
      var l :- ReadBinaryLemma(bs);
      var rest :- ReadBinaryProof(l.1);
      Ok([l.0] + rest)
  }

  function ReadPlainLines(ls: seq<string>): Result<Proof>
    decreases |ls|
  {
    if |ls| == 0 then Ok([])
    else
      var l :- ReadPlainLemma(ls[0]);
      var rest :- ReadPlainLines(ls[1..]);
      Ok([l] + rest)
  }

  function ReadPlainProof(text: string): Result<Proof>
  {
    ReadPlainLines(Lines(text))
  }

  /** Every lemma's literals are written readably. */
  predicate CodableProof(proof: Proof)
  {
    forall i :: 0 <= i < |proof| ==> CodableLits(proof[i].1)
  }

  /** Every lemma's literals are `i32` literals. */
  predicate ValidProof(proof: Proof)
  {
    forall i :: 0 <= i < |proof| ==> ValidLits(proof[i].1)
  }

  /** Writing a proof in two parts writes the parts one after the other. */
  lemma {:induction false} BinaryProofAppend(p: Proof, q: Proof)
    ensures BinaryProof(p + q) == BinaryProof(p) + BinaryProof(q)
    decreases |p|
  {
    if |p| == 0 {
      EmptyAppend(p, q);
      EmptyAppend(BinaryProof(p), BinaryProof(q));
    } else {
      TailOfAppend(p, q);
      BinaryProofAppend(p[1..], q);
      AppendAssoc(BinaryLemma(p[0].0, p[0].1), BinaryProof(p[1..]), BinaryProof(q));
    }
  }


  lemma {:induction false} PlainProofAppend(p: Proof, q: Proof)
    ensures PlainProof(p + q) == PlainProof(p) + PlainProof(q)
    decreases |p|
  {
    if |p| == 0 {
      EmptyAppend(p, q);
      EmptyAppend(PlainProof(p), PlainProof(q));
    } else {
      TailOfAppend(p, q);
      PlainProofAppend(p[1..], q);
      AppendAssoc(PlainLine(p[0].0, p[0].1) + "\n", PlainProof(p[1..]), PlainProof(q));
    }
  }


  /** Writing one more lemma appends its bytes. */
  lemma BinaryProofSnoc(proof: Proof, i: nat)
    requires i < |proof|
    ensures BinaryProof(proof[..i + 1]) == BinaryProof(proof[..i]) + BinaryLemma(proof[i].0, proof[i].1)
  {
    var x := proof[i];
    TakeSnoc(proof, i);
    BinaryProofAppend(proof[..i], [x]);
    ConsTail(x, []);
    assert BinaryProof([x]) == BinaryLemma(x.0, x.1) + [];
  }

  /** Writing one more lemma appends its line. */
  lemma PlainProofSnoc(proof: Proof, i: nat)
    requires i < |proof|
    ensures PlainProof(proof[..i + 1]) == PlainProof(proof[..i]) + PlainLine(proof[i].0, proof[i].1) + "\n"
  {
    var x := proof[i];
    TakeSnoc(proof, i);
    PlainProofAppend(proof[..i], [x]);
    ConsTail(x, []);
    assert PlainProof([x]) == PlainLine(x.0, x.1) + "\n" + "";
    AppendAssoc(PlainProof(proof[..i]), PlainLine(x.0, x.1), "\n");
  }

  /** The binary proof reads back lemma by lemma. */
  lemma {:induction false} BinaryProofRoundTrip(proof: Proof)
    requires CodableProof(proof)
    ensures ReadBinaryProof(BinaryProof(proof)) == Ok(proof)
    decreases |proof|
  {
    if |proof| > 0 {
      var rest := BinaryProof(proof[1..]);
      BinaryLemmaRoundTrip(proof[0].0, proof[0].1, rest);
      BinaryProofRoundTrip(proof[1..]);
      HeadTail(proof);
    }
  }

  /** The lines of a plain proof, one per lemma. */
  function PlainLines(proof: Proof): (ls: seq<string>)
    ensures |ls| == |proof|
    decreases |proof|
  {
    if |proof| == 0 then [] else [PlainLine(proof[0].0, proof[0].1)] + PlainLines(proof[1..])
  }

  lemma {:induction false} PlainProofUnlines(proof: Proof)
    ensures PlainProof(proof) == Unlines(PlainLines(proof))
    decreases |proof|
  {
    if |proof| > 0 {
      PlainProofUnlines(proof[1..]);
      ConsTail(PlainLine(proof[0].0, proof[0].1), PlainLines(proof[1..]));
    }
  }

  lemma {:induction false} PlainLinesAreLines(proof: Proof)
    ensures forall i :: 0 <= i < |proof| ==> IsLine(PlainLines(proof)[i])
    decreases |proof|
  {
    if |proof| > 0 {
      var x := PlainLine(proof[0].0, proof[0].1);
      var r := PlainLines(proof[1..]);
      PlainLineWords(proof[0].0, proof[0].1);
      PlainLinesAreLines(proof[1..]);
      forall i | 0 < i < |proof|
        ensures IsLine(PlainLines(proof)[i])
      {
        ConsIndex(x, r, i);
      }
    }
  }

  lemma {:induction false} ReadPlainLinesRoundTrip(proof: Proof)
    requires ValidProof(proof)
    ensures ReadPlainLines(PlainLines(proof)) == Ok(proof)
    decreases |proof|
  {
    if |proof| > 0 {
      PlainLemmaRoundTrip(proof[0].0, proof[0].1);
      ReadPlainLinesRoundTrip(proof[1..]);
      ConsTail(PlainLine(proof[0].0, proof[0].1), PlainLines(proof[1..]));
      HeadTail(proof);
    }
  }

  /** The plain proof reads back lemma by lemma. */
  lemma PlainProofRoundTrip(proof: Proof)
    requires ValidProof(proof)
    ensures ReadPlainProof(PlainProof(proof)) == Ok(proof)
  {
    PlainProofUnlines(proof);
    PlainLinesAreLines(proof);
    LinesOfUnlines(PlainLines(proof));
    ReadPlainLinesRoundTrip(proof);
  }

  datatype Format = Binary | Plain

  /** What `write_proof` sends to the writer. */
  datatype Output = Bytes(bytes: seq<Byte>) | Text(text: string)

  /** `write_proof`: each lemma of the proof in turn, in the chosen format.
      The output reads back as the proof. */
  method WriteProof(format: Format, proof: Proof) returns (out: Output)
    ensures format == Binary <==> out.Bytes?
    ensures out.Bytes? && CodableProof(proof) ==> ReadBinaryProof(out.bytes) == Ok(proof)
    ensures out.Text? && ValidProof(proof) ==> ReadPlainProof(out.text) == Ok(proof)
  {
    var bytes: seq<Byte> := [];
    var text := "";
    var i: nat := 0;
    while i < |proof|
      invariant i <= |proof|
      invariant format == Binary ==> bytes == BinaryProof(proof[..i])
      invariant format == Plain ==> text == PlainProof(proof[..i])
    {
      var step, clause := proof[i].0, proof[i].1;
      if format == Binary {
        BinaryProofSnoc(proof, i);
        bytes := bytes + BinaryLemma(step, clause);
      } else {
        PlainProofSnoc(proof, i);
        text := text + PlainLine(step, clause) + "\n";
      }
      i := i + 1;
    }
    assert proof[..i] == proof;
    if format == Binary {
      if CodableProof(proof) {
        BinaryProofRoundTrip(proof);
      }
      out := Bytes(bytes);
    } else {
      if ValidProof(proof) {
        PlainProofRoundTrip(proof);
      }
      out := Text(text);
    }
  }

  // ---------------------------------------------------------------------
  // The overflow of `encode_lit` and the tests of src/io/drat.rs

  /** `encode_lit` on `i32::MIN`: the doubled value wraps to 0, so the code
      written is 1, which names no literal and makes the clause unreadable;
      the code computed without overflow reads back. */
  lemma MinLitCode()
    ensures LitCodeAsWritten(I32Min) == 1 && EncodeLitAsWritten(I32Min) == [1]
    ensures ReadLits(EncodeLitAsWritten(I32Min) + [0]).Err?
    ensures ReadLits(EncodeLit(I32Min) + [0]) == Ok(([I32Min], []))
  {
    assert ReadNumber([1, 0]) == Ok((1, [0]));
    assert EncodeLitAsWritten(I32Min) + [0] == [1, 0];
    EncodeLitReadsBack(I32Min, [0]);
    ReadZero([]);
    assert [0] + [] == [0];
    assert [I32Min] + [] == [I32Min];
  }

  /** The 0 code ends a clause. */
  lemma ReadZero(rest: seq<Byte>)
    ensures ReadLits([0] + rest) == Ok(([], rest))
  {
    assert ([0] + rest)[1..] == rest;
  }

  /** So a lemma with an `i32::MIN` literal, as written, does not read
      back. */
  lemma MinLitLemma(rest: seq<Byte>)
    ensures ReadBinaryLemma(BinaryLemma(Add, [I32Min]) + rest).Err?
  {
    var c: Clause := [I32Min];
    assert c[1..] == [];
    assert EncodeLits(c) == [1];
    assert (BinaryLemma(Add, c) + rest)[1..] == [1, 0] + rest;
    assert ([1, 0] + rest)[1..] == [0] + rest;
    assert ReadNumber([1, 0] + rest) == Ok((1, [0] + rest));
  }

  /** Written with the corrected encoding, the same lemma reads back. */
  lemma MinLitLemmaCorrected(rest: seq<Byte>)
    ensures ReadBinaryLemma([StepCode(Add)] + EncodeLit(I32Min) + [0] + rest) == Ok(((Add, [I32Min]), rest))
  {
    var e := EncodeLit(I32Min);
    assert ([StepCode(Add)] + e + [0] + rest)[1..] == e + ([0] + rest) by {
      AppendAssoc(e, [0], rest);
    }
    EncodeLitReadsBack(I32Min, [0] + rest);
    ReadZero(rest);
    assert [I32Min] + [] == [I32Min];
  }

  /** The vectors of the `var_byte_encoding` test. */
  lemma EncodeVectors()
    ensures Encode(0) == [0x00] && Encode(1) == [0x01] && Encode(0x7f) == [0x7f]
    ensures Encode(0x80) == [0x80, 0x01] && Encode(0x102) == [0x82, 0x02]
    ensures Encode(0x3fff) == [0xff, 0x7f] && Encode(0x4003) == [0x83, 0x80, 0x01]
    ensures Encode(0xfff_ffff) == [0xff, 0xff, 0xff, 0x7f]
    ensures Encode(0x1000_0007) == [0x87, 0x80, 0x80, 0x80, 0x01]
  {
    assert Encode(0x4000) == [0x80, 0x80, 0x01];
    assert Encode(0x20_0000) == [0x80, 0x80, 0x80, 0x01];
    assert Encode(0x1f_ffff) == [0xff, 0xff, 0x7f];
  }

  lemma TestLitCodes()
    ensures EncodeLitAsWritten(-63) == [0x7f] && EncodeLitAsWritten(-8193) == [0x83, 0x80, 0x01]
    ensures EncodeLitAsWritten(129) == [0x82, 0x02] && EncodeLitAsWritten(-8191) == [0xff, 0x7f]
  {
    assert Encode(0x80) == [0x80, 0x01];
  }

  lemma EncodeLitsOfTwo(a: int, b: int)
    ensures EncodeLits([a, b]) == EncodeLitAsWritten(a) + EncodeLitAsWritten(b)
  {
    assert [a, b][1..] == [b];
    assert [b][1..] == [];
    assert EncodeLits([b]) == EncodeLitAsWritten(b) + [];
    EmptyAppend([], EncodeLitAsWritten(b));
  }

  lemma BinaryProofOfTwo(x: (ProofStep, Clause), y: (ProofStep, Clause))
    ensures BinaryProof([x, y]) == BinaryLemma(x.0, x.1) + BinaryLemma(y.0, y.1)
  {
    assert [x, y][1..] == [y];
    assert [y][1..] == [];
    assert BinaryProof([y]) == BinaryLemma(y.0, y.1) + [];
    EmptyAppend([], BinaryLemma(y.0, y.1));
  }

  /** The two lemmas of the binary `lemma_encoding` test. */
  lemma BinaryLemmaTest(p: Proof)
    requires p == [(Delete, [-63, -8193]), (Add, [129, -8191])]
    ensures BinaryProof(p) == [0x64, 0x7f, 0x83, 0x80, 0x01, 0x00, 0x61, 0x82, 0x02, 0xff, 0x7f, 0x00]
  {
    TestLitCodes();
    EncodeLitsOfTwo(-63, -8193);
    EncodeLitsOfTwo(129, -8191);
    BinaryProofOfTwo(p[0], p[1]);
    assert p == [p[0], p[1]];
  }

  lemma TestLitWords()
    ensures Tokens([-63, -8193]) == ["-63", "-8193"] && Tokens([129, -8191]) == ["129", "-8191"]
  {
    assert IntToString(-63) == "-63";
    assert IntToString(-8193) == "-8193";
    assert IntToString(129) == "129";
    assert IntToString(-8191) == "-8191";
  }

  lemma SpacedOfTwo(a: string, b: string)
    ensures Spaced([a, b]) == a + " " + b + " "
  {
    assert [a, b][1..] == [b];
    assert [b][1..] == [];
    assert Spaced([b]) == b + " " + "";
  }

  lemma PlainProofOfTwo(x: (ProofStep, Clause), y: (ProofStep, Clause))
    ensures PlainProof([x, y]) == PlainLine(x.0, x.1) + "\n" + PlainLine(y.0, y.1) + "\n"
  {
    assert [x, y][1..] == [y];
    assert [y][1..] == [];
    assert PlainProof([y]) == PlainLine(y.0, y.1) + "\n" + "";
  }

  /** A plain lemma of two literals, word by word. */
  lemma PlainLineOfTwo(step: ProofStep, clause: Clause, a: string, b: string)
    requires Tokens(clause) == [a, b]
    ensures PlainLine(step, clause) == (if step == Delete then "d " else "") + (a + " " + b + " ") + "0"
  {
    SpacedOfTwo(a, b);
  }

  lemma DeleteLineText(d: string, a: string, b: string)
    requires d == "d " && a == "-63" && b == "-8193"
    ensures d + (a + " " + b + " ") + "0" == "d -63 -8193 0"
  {
  }

  lemma AddLineText(a: string, b: string)
    requires a == "129" && b == "-8191"
    ensures "" + (a + " " + b + " ") + "0" == "129 -8191 0"
  {
  }

  lemma DeleteLineTest()
    ensures PlainLine(Delete, [-63, -8193]) == "d -63 -8193 0"
  {
    TestLitWords();
    PlainLineOfTwo(Delete, [-63, -8193], "-63", "-8193");
    DeleteLineText("d ", "-63", "-8193");
  }

  lemma AddLineTest()
    ensures PlainLine(Add, [129, -8191]) == "129 -8191 0"
  {
    TestLitWords();
    PlainLineOfTwo(Add, [129, -8191], "129", "-8191");
    AddLineText("129", "-8191");
  }

  lemma TestOutputText(a: string, b: string)
    requires a == "d -63 -8193 0" && b == "129 -8191 0"
    ensures a + "\n" + b + "\n" == "d -63 -8193 0\n129 -8191 0\n"
  {
  }

  /** The two lemmas of the plain `lemma_encoding` test. */
  lemma PlainLemmaTest(p: Proof)
    requires p == [(Delete, [-63, -8193]), (Add, [129, -8191])]
    ensures PlainProof(p) == "d -63 -8193 0\n129 -8191 0\n"
  {
    DeleteLineTest();
    AddLineTest();
    PlainProofOfTwo(p[0], p[1]);
    TestOutputText("d -63 -8193 0", "129 -8191 0");
    assert p == [p[0], p[1]];
  }
}
