/** The DIMACS CNF reader and the solution writer of src/io/mod.rs, and the
    older reader of src/io.rs, as functions over text. A panic of the
    source (a failed `unwrap`, `assert` or slice index) is an `Err`. */
module Dimacs {
  import opened Results
  import opened Types
  import opened Text
  import opened SeqUtil

  /** `str::starts_with` for one character. */
  predicate StartsWith(line: string, c: char)
  {
    |line| > 0 && line[0] == c
  }

  predicate NoZero(xs: seq<int>)
  {
    forall i :: 0 <= i < |xs| ==> xs[i] != 0
  }

  // ---------------------------------------------------------------------
  // Problem line

  datatype Header = Header(varCount: nat, clauseCount: nat)

  /** The problem line: the words `p` and `cnf`, then the variable and the
      clause count as `usize`; words after the fourth are ignored. */
  function ParseHeader(line: string): (r: Result<Header>)
    ensures r.Ok? <==>
      var parts := Words(line);
      |parts| >= 4 && parts[0] == "p" && parts[1] == "cnf"
      && ParseUsize(parts[2]).Ok? && ParseUsize(parts[3]).Ok?
    ensures r.Ok? ==>
      ParseUsize(Words(line)[2]) == Ok(r.value.varCount)
      && ParseUsize(Words(line)[3]) == Ok(r.value.clauseCount)
  {
    var parts := Words(line);
    if |parts| < 2 || parts[0] != "p" || parts[1] != "cnf" || |parts| < 4 then
      Err("malformed problem line")
    else
      var varCount :- ParseUsize(parts[2]);
      var clauseCount :- ParseUsize(parts[3]);
      Ok(Header(varCount, clauseCount))
  }

  /** The problem line a writer of the format produces. */
  function HeaderLine(h: Header): string
  {
    Unwords(["p", "cnf", NatToString(h.varCount), NatToString(h.clauseCount)])
  }

  /** `HeaderLine` and `ParseHeader` are inverse for counts that fit a `usize`. */
  lemma HeaderRoundTrip(h: Header)
    requires h.varCount <= UsizeMax && h.clauseCount <= UsizeMax
    ensures ParseHeader(HeaderLine(h)) == Ok(h)
  {
    var parts := ["p", "cnf", NatToString(h.varCount), NatToString(h.clauseCount)];
    assert IsWord(parts[0]) && IsWord(parts[1]);
    WordsUnwords(parts);
    ParseUsizeRoundTrip(h.varCount);
    ParseUsizeRoundTrip(h.clauseCount);
  }

  lemma HeaderLineShape(h: Header)
    ensures IsLine(HeaderLine(h)) && StartsWith(HeaderLine(h), 'p')
  {
    var parts := ["p", "cnf", NatToString(h.varCount), NatToString(h.clauseCount)];
    assert IsWord(parts[0]) && IsWord(parts[1]) && IsLine(parts[0]) && IsLine(parts[1]);
    UnwordsIsLine(parts);
  }

  /** The header and the lines after the problem line. */
  datatype Preamble = Preamble(header: Header, body: seq<string>)

  /** The header loop: lines starting with 'c' are skipped and the first
      other line must be the problem line. Running out of lines is a panic
      of `lines.next().unwrap()`. */
  function FindHeader(lines: seq<string>): Result<Preamble>
    decreases |lines|
  {
    if |lines| == 0 then Err("missing problem line")
    else if StartsWith(lines[0], 'c') then FindHeader(lines[1..])
    else
      var h :- ParseHeader(lines[0]);
      Ok(Preamble(h, lines[1..]))
  }

  /** When line k is the first line not starting with 'c', it is the
      problem line: the loop fails exactly when it does not parse, and
      otherwise the body is everything after it. */
  lemma {:induction false} FindHeaderAt(lines: seq<string>, k: nat)
    requires k < |lines| && !StartsWith(lines[k], 'c')
    requires forall j :: 0 <= j < k ==> StartsWith(lines[j], 'c')
    ensures FindHeader(lines).Err? <==> ParseHeader(lines[k]).Err?
    ensures FindHeader(lines).Ok? ==>
      FindHeader(lines).value == Preamble(ParseHeader(lines[k]).value, lines[k + 1..])
    decreases k
  {
    if k > 0 {
      var rest := lines[1..];
      assert rest[k - 1] == lines[k];
      assert rest[k..] == lines[k + 1..];
      FindHeaderAt(rest, k - 1);
    }
  }

  /** Input made only of comment lines has no problem line. */
  lemma {:induction false} FindHeaderAllComments(lines: seq<string>)
    requires forall j :: 0 <= j < |lines| ==> StartsWith(lines[j], 'c')
    ensures FindHeader(lines).Err?
    decreases |lines|
  {
    if |lines| > 0 {
      FindHeaderAllComments(lines[1..]);
    }
  }

  // ---------------------------------------------------------------------
  // Clause lines

  /** The reader's state: the clauses closed so far and the one still open. */
  datatype Acc = Acc(closed: seq<Clause>, open: Clause)

  const Start := Acc([], [])

  /** One literal of the body: 0 closes the open clause, any other value
      extends it. */
  function Feed(acc: Acc, lit: int): (r: Acc)
    ensures lit == 0 ==> r.closed == acc.closed + [acc.open] && r.open == []
    ensures lit != 0 ==> r.closed == acc.closed && r.open == acc.open + [lit]
  {
    if lit == 0 then Acc(acc.closed + [acc.open], []) else Acc(acc.closed, acc.open + [lit])
  }

  function FeedAll(acc: Acc, xs: seq<int>): Acc
    decreases |xs|
  {
    if |xs| == 0 then acc else FeedAll(Feed(acc, xs[0]), xs[1..])
  }

  /** The words of one line, each parsed as an `i32` and fed in order. */
  function FeedWords(acc: Acc, words: seq<string>): Result<Acc>
    decreases |words|
  {
    if |words| == 0 then Ok(acc)
    else
      var lit :- ParseI32(words[0]);
      FeedWords(Feed(acc, lit), words[1..])
  }

  /** The body loop; with `stopAtPercent` (the current reader) a line
      starting with '%' ends it. */
  function FeedLines(acc: Acc, lines: seq<string>, stopAtPercent: bool): Result<Acc>
    decreases |lines|
  {
    if |lines| == 0 then Ok(acc)
    else if stopAtPercent && StartsWith(lines[0], '%') then Ok(acc)
    else
      var next :- FeedWords(acc, Words(lines[0]));
      FeedLines(next, lines[1..], stopAtPercent)
  }

  /** `read_problem` of src/io/mod.rs over the input's lines. */
  function ReadLines(lines: seq<string>): (r: Result<Problem>)
    ensures r.Ok? ==> WellFormed(r.value)
    ensures r.Ok? ==>
      FindHeader(lines).Ok?
      && r.value.varCount == FindHeader(lines).value.header.varCount
      && |r.value.clauses| == FindHeader(lines).value.header.clauseCount
  {
    var pre :- FindHeader(lines);
    var acc :- FeedLines(Start, pre.body, true);
    if |acc.closed| != pre.header.clauseCount then Err("clause count mismatch")
    else if !WellFormed(Problem(pre.header.varCount, acc.closed)) then Err("variable out of range")
    else Ok(Problem(pre.header.varCount, acc.closed))
  }

  /** `read_problem` of src/io.rs: no '%' terminator and no range check. */
  function ReadLinesOld(lines: seq<string>): (r: Result<Problem>)
    ensures r.Ok? ==>
      FindHeader(lines).Ok?
      && r.value.varCount == FindHeader(lines).value.header.varCount
      && |r.value.clauses| == FindHeader(lines).value.header.clauseCount
  {
    var pre :- FindHeader(lines);
    var acc :- FeedLines(Start, pre.body, false);
    if |acc.closed| != pre.header.clauseCount then Err("clause count mismatch")
    else Ok(Problem(pre.header.varCount, acc.closed))
  }

  function ReadProblem(input: string): Result<Problem>
  {
    ReadLines(Lines(input))
  }

  function ReadProblemOld(input: string): Result<Problem>
  {
    ReadLinesOld(Lines(input))
  }

  // ---------------------------------------------------------------------
  // How the body becomes clauses

  /** Clauses written out with a terminating 0 each. */
  function Join0(cs: seq<Clause>): seq<int>
    decreases |cs|
  {
    if |cs| == 0 then [] else Join0(cs[..|cs| - 1]) + cs[|cs| - 1] + [0]
  }

  lemma Join0Snoc(cs: seq<Clause>, c: Clause)
    ensures Join0(cs + [c]) == Join0(cs) + c + [0]
  {
    assert (cs + [c])[..|cs|] == cs;
  }

  /** No clause, open or closed, holds a 0. */
  predicate Clean(acc: Acc)
  {
    NoZero(acc.open) && forall i :: 0 <= i < |acc.closed| ==> NoZero(acc.closed[i])
  }

  /** The literals the state stands for: each closed clause with its 0,
      then the open clause. */
  function Written(acc: Acc): seq<int>
  {
    Join0(acc.closed) + acc.open
  }

  lemma FeedWritten(acc: Acc, x: int)
    requires Clean(acc)
    ensures Clean(Feed(acc, x)) && Written(Feed(acc, x)) == Written(acc) + [x]
  {
    if x == 0 {
      Join0Snoc(acc.closed, acc.open);
      assert Written(Feed(acc, x)) == Join0(acc.closed + [acc.open]) + [];
    } else {
      assert Written(Feed(acc, x)) == Join0(acc.closed) + (acc.open + [x]);
    }
  }

  /** Nothing is lost: the literals fed so far are the closed clauses, each
      with its 0, followed by the open clause, and no clause holds a 0. */
  lemma {:induction false} FeedAllDecomposes(acc: Acc, xs: seq<int>)
    requires Clean(acc)
    ensures Clean(FeedAll(acc, xs)) && Written(FeedAll(acc, xs)) == Written(acc) + xs
    decreases |xs|
  {
    if |xs| > 0 {
      var next := Feed(acc, xs[0]);
      FeedWritten(acc, xs[0]);
      FeedAllDecomposes(next, xs[1..]);
      AppendCons(Written(acc), xs);
    } else {
      assert Written(acc) + xs == Written(acc);
    }
  }

  lemma {:induction false} FeedAllAppend(acc: Acc, xs: seq<int>, ys: seq<int>)
    ensures FeedAll(acc, xs + ys) == FeedAll(FeedAll(acc, xs), ys)
    decreases |xs|
  {
    if |xs| > 0 {
      FeedAllAppend(Feed(acc, xs[0]), xs[1..], ys);
      assert (xs + ys)[1..] == xs[1..] + ys;
    } else {
      assert xs + ys == ys;
    }
  }

  /** Non-zero literals only extend the open clause. */
  lemma {:induction false} FeedAllOpen(acc: Acc, c: Clause)
    requires NoZero(c)
    ensures FeedAll(acc, c) == Acc(acc.closed, acc.open + c)
    decreases |c|
  {
    if |c| > 0 {
      FeedAllOpen(Feed(acc, c[0]), c[1..]);
      assert acc.open + [c[0]] + c[1..] == acc.open + c;
    } else {
      assert acc.open + c == acc.open;
    }
  }

  /** A clause and its 0 are closed as one clause. */
  lemma FeedAllClause(acc: Acc, c: Clause)
    requires NoZero(c) && acc.open == []
    ensures FeedAll(acc, c + [0]) == Acc(acc.closed + [c], [])
  {
    FeedAllAppend(acc, c, [0]);
    FeedAllOpen(acc, c);
    assert [] + c == c;
  }

  /** The converse of `FeedAllDecomposes`: written-out clauses are read
      back, and literals after the last 0 stay open and are not emitted. */
  lemma {:induction false} FeedJoin(cs: seq<Clause>, tail: Clause)
    requires forall i :: 0 <= i < |cs| ==> NoZero(cs[i])
    requires NoZero(tail)
    ensures FeedAll(Start, Join0(cs) + tail) == Acc(cs, tail)
    decreases |cs|
  {
    if |cs| == 0 {
      assert Join0(cs) + tail == tail;
      FeedAllOpen(Start, tail);
      assert [] + tail == tail;
    } else {
      var init := cs[..|cs| - 1];
      var last := cs[|cs| - 1];
      FeedJoin(init, []);
      assert Join0(init) + [] == Join0(init);
      assert Join0(cs) + tail == Join0(init) + (last + [0]) + tail;
      FeedAllAppend(Start, Join0(init), last + [0]);
      FeedAllClause(Acc(init, []), last);
      FeedAllAppend(Start, Join0(init) + (last + [0]), tail);
      FeedAllOpen(Acc(cs, []), tail);
      assert init + [last] == cs;
      assert [] + tail == tail;
    }
  }

  /** Parsing a word sequence that renders integers feeds those integers. */
  lemma {:induction false} FeedTokens(acc: Acc, xs: seq<int>)
    requires forall i :: 0 <= i < |xs| ==> I32Min <= xs[i] <= I32Max
    ensures FeedWords(acc, Tokens(xs)) == Ok(FeedAll(acc, xs))
    decreases |xs|
  {
    if |xs| > 0 {
      ParseI32RoundTrip(xs[0]);
      assert Tokens(xs)[1..] == Tokens(xs[1..]);
      FeedTokens(Feed(acc, xs[0]), xs[1..]);
    }
  }

  /** The words of all lines, in order. */
  function AllWords(lines: seq<string>): seq<string>
    decreases |lines|
  {
    if |lines| == 0 then [] else Words(lines[0]) + AllWords(lines[1..])
  }

  lemma {:induction false} FeedWordsAppend(acc: Acc, ws: seq<string>, vs: seq<string>)
    ensures FeedWords(acc, ws + vs) ==
      match FeedWords(acc, ws)
      case Ok(next) => FeedWords(next, vs)
      case Err(m) => Err(m)
    decreases |ws|
  {
    if |ws| > 0 {
      assert (ws + vs)[0] == ws[0];
      assert (ws + vs)[1..] == ws[1..] + vs;
      var lit := ParseI32(ws[0]);
      if lit.Ok? {
        FeedWordsAppend(Feed(acc, lit.value), ws[1..], vs);
      }
    } else {
      assert ws + vs == vs;
    }
  }

  /** Line breaks do not matter: literals accumulate across them, so a
      clause may span lines and a line may hold several clauses. */
  lemma {:induction false} LineBreaksIrrelevant(acc: Acc, lines: seq<string>, stopAtPercent: bool)
    requires stopAtPercent ==> forall i :: 0 <= i < |lines| ==> !StartsWith(lines[i], '%')
    ensures FeedLines(acc, lines, stopAtPercent) == FeedWords(acc, AllWords(lines))
    decreases |lines|
  {
    if |lines| > 0 {
      FeedWordsAppend(acc, Words(lines[0]), AllWords(lines[1..]));
      var next := FeedWords(acc, Words(lines[0]));
      if next.Ok? {
        LineBreaksIrrelevant(next.value, lines[1..], stopAtPercent);
      }
    }
  }

  /** The current reader stops at the first line starting with '%'; what
      follows is never looked at. */
  lemma {:induction false} PercentEnds(acc: Acc, before: seq<string>, line: string, after: seq<string>)
    requires StartsWith(line, '%')
    requires forall i :: 0 <= i < |before| ==> !StartsWith(before[i], '%')
    ensures FeedLines(acc, before + [line] + after, true) == FeedLines(acc, before, true)
    decreases |before|
  {
    var lines := before + [line] + after;
    if |before| == 0 {
      assert lines[0] == line;
    } else {
      assert lines[0] == before[0];
      assert lines[1..] == before[1..] + [line] + after;
      var next := FeedWords(acc, Words(before[0]));
      if next.Ok? {
        PercentEnds(next.value, before[1..], line, after);
      }
    }
  }

  /** Lines starting with 'c' before the problem line are skipped, by both
      readers. */
  lemma CommentSkipped(line: string, rest: seq<string>)
    requires StartsWith(line, 'c')
    ensures ReadLines([line] + rest) == ReadLines(rest)
    ensures ReadLinesOld([line] + rest) == ReadLinesOld(rest)
  {
    assert ([line] + rest)[1..] == rest;
  }

  // ---------------------------------------------------------------------
  // Round trip

  /** Integers as one line, separated by single spaces. */
  function IntLine(xs: seq<int>): string
  {
    Unwords(Tokens(xs))
  }

  /** One clause as a line: its literals and the terminating 0. */
  function ClauseLine(c: Clause): string
  {
    IntLine(c + [0])
  }

  function ClauseLines(cs: seq<Clause>): (ls: seq<string>)
    ensures |ls| == |cs|
    ensures forall i :: 0 <= i < |cs| ==> ls[i] == ClauseLine(cs[i])
    decreases |cs|
  {
    if |cs| == 0 then [] else [ClauseLine(cs[0])] + ClauseLines(cs[1..])
  }

  /** A problem in DIMACS CNF form, one clause per line. */
  function Render(p: Problem): string
  {
    Unlines([HeaderLine(Header(p.varCount, |p.clauses|))] + ClauseLines(p.clauses))
  }

  lemma {:induction false} UnwordsIsLine(ws: seq<string>)
    requires forall i :: 0 <= i < |ws| ==> IsWord(ws[i]) && IsLine(ws[i])
    ensures IsLine(Unwords(ws))
    ensures |ws| > 0 ==> |ws[0]| > 0 && |Unwords(ws)| > 0 && Unwords(ws)[0] == ws[0][0]
    decreases |ws|
  {
    if |ws| > 1 {
      UnwordsIsLine(ws[1..]);
    }
  }

  lemma IntLineShape(xs: seq<int>)
    requires |xs| > 0 && forall i :: 0 <= i < |xs| ==> I32Min <= xs[i] <= I32Max
    ensures IsLine(IntLine(xs)) && !StartsWith(IntLine(xs), '%') && !StartsWith(IntLine(xs), 'c')
    ensures Words(IntLine(xs)) == Tokens(xs)
  {
    var ws := Tokens(xs);
    UnwordsIsLine(ws);
    WordsUnwords(ws);
    var w := IntToString(xs[0]);
    assert IntLine(xs)[0] == w[0];
    if xs[0] >= 0 {
      assert IsDigit(w[0]);
    }
  }

  lemma ClauseLineShape(c: Clause)
    requires forall i :: 0 <= i < |c| ==> IsLit(c[i])
    ensures IsLine(ClauseLine(c)) && !StartsWith(ClauseLine(c), '%') && !StartsWith(ClauseLine(c), 'c')
    ensures Words(ClauseLine(c)) == Tokens(c + [0])
  {
    IntLineShape(c + [0]);
  }

  lemma {:induction false} FeedClauseLines(acc: Acc, cs: seq<Clause>, stopAtPercent: bool)
    requires acc.open == []
    requires forall i, j :: 0 <= i < |cs| && 0 <= j < |cs[i]| ==> IsLit(cs[i][j])
    ensures FeedLines(acc, ClauseLines(cs), stopAtPercent) == Ok(Acc(acc.closed + cs, []))
    decreases |cs|
  {
    if |cs| == 0 {
      assert acc.closed + cs == acc.closed;
    } else {
      var c := cs[0];
      assert forall j :: 0 <= j < |c| ==> IsLit(c[j]);
      ClauseLineShape(c);
      FeedTokens(acc, c + [0]);
      FeedAllClause(acc, c);
      assert ClauseLines(cs)[1..] == ClauseLines(cs[1..]);
      FeedClauseLines(Acc(acc.closed + [c], []), cs[1..], stopAtPercent);
      AppendCons(acc.closed, cs);
    }
  }

  /** A well-formed problem with at most `i32::MAX` variables has only
      literals that fit an `i32`. */
  lemma WellFormedLits(p: Problem)
    requires WellFormed(p) && p.varCount <= I32Max
    ensures forall i, j :: 0 <= i < |p.clauses| && 0 <= j < |p.clauses[i]| ==> IsLit(p.clauses[i][j])
  {
    forall i, j | 0 <= i < |p.clauses| && 0 <= j < |p.clauses[i]|
      ensures IsLit(p.clauses[i][j])
    {
      var l := p.clauses[i][j];
      assert l in p.clauses[i];
      assert l != 0 && ToVar(l) <= p.varCount;
    }
  }

  /** The rendered text splits into the problem line and one line per clause. */
  lemma RenderLines(p: Problem)
    requires forall i, j :: 0 <= i < |p.clauses| && 0 <= j < |p.clauses[i]| ==> IsLit(p.clauses[i][j])
    requires p.varCount <= UsizeMax && |p.clauses| <= UsizeMax
    ensures Lines(Render(p)) == [HeaderLine(Header(p.varCount, |p.clauses|))] + ClauseLines(p.clauses)
  {
    var h := Header(p.varCount, |p.clauses|);
    var body := ClauseLines(p.clauses);
    var ls := [HeaderLine(h)] + body;
    HeaderLineShape(h);
    forall i | 0 <= i < |ls|
      ensures IsLine(ls[i])
    {
      if i > 0 {
        var c := p.clauses[i - 1];
        assert forall j :: 0 <= j < |c| ==> IsLit(c[j]);
        ClauseLineShape(c);
      }
    }
    LinesOfUnlines(ls);
  }

  /** Both readers read a rendered problem back unchanged. */
  lemma ReadRender(p: Problem)
    requires WellFormed(p) && p.varCount <= I32Max && |p.clauses| <= UsizeMax
    ensures ReadProblem(Render(p)) == Ok(p)
    ensures ReadProblemOld(Render(p)) == Ok(p)
  {
    var h := Header(p.varCount, |p.clauses|);
    var body := ClauseLines(p.clauses);
    var ls := [HeaderLine(h)] + body;
    WellFormedLits(p);
    RenderLines(p);
    HeaderRoundTrip(h);
    HeaderLineShape(h);
    assert ls[1..] == body;
    assert FindHeader(ls) == Ok(Preamble(h, body));
    FeedClauseLines(Start, p.clauses, true);
    FeedClauseLines(Start, p.clauses, false);
    assert [] + p.clauses == p.clauses;
  }

  // ---------------------------------------------------------------------
  // Solution writer

  /** `model.chunks(PER_LINE)` with `PER_LINE` = 10: consecutive slices of
      ten literals, the last one shorter when ten does not divide the
      length. */
  function Chunks(model: seq<Lit>): (r: seq<seq<Lit>>)
    ensures |r| == (|model| + 9) / 10
    ensures forall i :: 0 <= i < |r| ==> 1 <= |r[i]| <= 10
  {
    seq((|model| + 9) / 10, i requires 0 <= i < (|model| + 9) / 10 =>
      model[10 * i..Min(10 * i + 10, |model|)])
  }

  /** The chunks cover the model exactly once, in order. */
  lemma {:induction false} FlattenChunks(model: seq<Lit>)
    ensures Flatten(Chunks(model)) == model
    decreases |model|
  {
    var cs := Chunks(model);
    if |model| > 0 {
      var k := Min(10, |model|);
      var rest := model[k..];
      FlattenChunks(rest);
      var tail := Chunks(rest);
      assert |tail| == |cs| - 1;
      forall i | 0 <= i < |tail|
        ensures tail[i] == cs[i + 1]
      {
        var lo := 10 * i;
        var hi := Min(lo + 10, |rest|);
        assert 10 * (i + 1) == k + lo;
        assert Min(10 * (i + 1) + 10, |model|) == k + hi;
        SliceOfSlice(model, k, lo, hi);
      }
      assert cs[1..] == tail;
      assert cs[0] == model[..k];
      assert model[..k] + rest == model;
    }
  }

  /** The `v` lines: each chunk's literals, each followed by a space. */
  function ModelLines(model: seq<Lit>): (ls: seq<string>)
    ensures |ls| == |Chunks(model)|
    ensures forall i :: 0 <= i < |ls| ==> ls[i] == VLine(Chunks(model)[i])
  {
    var cs := Chunks(model);
    seq(|cs|, i requires 0 <= i < |cs| => VLine(cs[i]))
  }

  /** One `v` line: the literals, each followed by a space. */
  function VLine(chunk: seq<Lit>): string
  {
    "v " + Spaced(Tokens(chunk))
  }

  function StatusWord(sol: Solution): string
  {
    match sol
    case Sat(_) => "SATISFIABLE"
    case Unsat => "UNSATISFIABLE"
    case Unknown => "UNKNOWN"
  }

  /** `write_solution`: the solver's signature, the status line and, for a
      model, the `v` lines closed by `v 0`. */
  function SolutionLines(sol: Solution): seq<string>
  {
    ["c Solved by VW Passat.", "s " + StatusWord(sol)]
    + (if sol.Sat? then ModelLines(sol.model) + ["v 0"] else [])
  }

  function WriteSolution(sol: Solution): string
  {
    Unlines(SolutionLines(sol))
  }

  /** One `v` line: the word `v` and the literals it carries. */
  lemma ModelLineShape(chunk: seq<Lit>)
    ensures IsLine(VLine(chunk))
    ensures Words(VLine(chunk)) == ["v"] + Tokens(chunk)
  {
    var ws := Tokens(chunk);
    assert IsWord("v") && IsLine("v");
    WordsLabelled("v", ws);
    LabelledIsLine("v", ws);
    assert VLine(chunk) == "v" + " " + Spaced(ws);
  }

  /** The status line names exactly one of the three outcomes. */
  lemma StatusLine(sol: Solution)
    ensures IsLine("s " + StatusWord(sol))
    ensures Words("s " + StatusWord(sol)) == ["s", StatusWord(sol)]
    ensures StatusWord(sol) == "SATISFIABLE" <==> sol.Sat?
    ensures StatusWord(sol) == "UNSATISFIABLE" <==> sol.Unsat?
    ensures StatusWord(sol) == "UNKNOWN" <==> sol.Unknown?
  {
    var status := StatusWord(sol);
    assert IsWord("s") && IsWord(status);
    WordsCons("s", ' ', status);
    WordsSingle(status);
    assert "s " + status == "s" + [' '] + status;
  }

  /** Every `v` line is a line of its own whose words are `v` and the
      literals of its chunk; at most ten literals per line. */
  lemma ModelLinesWords(model: seq<Lit>)
    ensures forall i :: 0 <= i < |ModelLines(model)| ==>
      IsLine(ModelLines(model)[i])
      && Words(ModelLines(model)[i]) == ["v"] + Tokens(Chunks(model)[i])
      && |Words(ModelLines(model)[i])| <= 11
  {
    var cs := Chunks(model);
    forall i | 0 <= i < |ModelLines(model)|
      ensures IsLine(ModelLines(model)[i])
      ensures Words(ModelLines(model)[i]) == ["v"] + Tokens(cs[i])
    {
      ModelLineShape(cs[i]);
    }
  }

  /** The written solution splits back into exactly the lines written:
      signature, status and, for a model, one `v` line per ten literals and
      the closing `v 0`. */
  lemma WriteSolutionLines(sol: Solution)
    ensures Lines(WriteSolution(sol)) == SolutionLines(sol)
    ensures |SolutionLines(sol)| == if sol.Sat? then 3 + (|sol.model| + 9) / 10 else 2
  {
    var ls := SolutionLines(sol);
    StatusLine(sol);
    if sol.Sat? {
      ModelLinesWords(sol.model);
    }
    forall i | 0 <= i < |ls|
      ensures IsLine(ls[i])
    {
      if 2 <= i < |ls| - 1 {
        assert ls[i] == ModelLines(sol.model)[i - 2];
      }
    }
    LinesOfUnlines(ls);
  }

  // ---------------------------------------------------------------------
  // The unit tests of both readers

  function IntLines(xss: seq<seq<int>>): (ls: seq<string>)
    ensures |ls| == |xss|
    ensures forall i :: 0 <= i < |xss| ==> ls[i] == IntLine(xss[i])
    decreases |xss|
  {
    if |xss| == 0 then [] else [IntLine(xss[0])] + IntLines(xss[1..])
  }

  /** Lines of integers feed their integers in order. */
  lemma {:induction false} FeedIntLines(acc: Acc, xss: seq<seq<int>>, stopAtPercent: bool)
    requires forall i :: 0 <= i < |xss| ==> |xss[i]| > 0
    requires forall i, j :: 0 <= i < |xss| && 0 <= j < |xss[i]| ==> I32Min <= xss[i][j] <= I32Max
    ensures FeedLines(acc, IntLines(xss), stopAtPercent) == Ok(FeedAll(acc, Flatten(xss)))
    decreases |xss|
  {
    if |xss| > 0 {
      var xs := xss[0];
      assert forall j :: 0 <= j < |xs| ==> I32Min <= xs[j] <= I32Max;
      IntLineShape(xs);
      FeedTokens(acc, xs);
      assert IntLines(xss)[1..] == IntLines(xss[1..]);
      FeedIntLines(FeedAll(acc, xs), xss[1..], stopAtPercent);
      FeedAllAppend(acc, xs, Flatten(xss[1..]));
    }
  }

  const BasicInput := "c whatever\np cnf 2 2\n1 2 0\n1 -2 0"
  const SplitInput := "c whatever\np cnf 1 1\n1 1\n-1 -1 0"

  lemma NatStrings()
    ensures NatToString(1) == "1" && NatToString(2) == "2"
    ensures IntToString(0) == "0" && IntToString(1) == "1" && IntToString(2) == "2"
    ensures IntToString(-1) == "-1" && IntToString(-2) == "-2"
  {
  }

  /** A problem line followed by lines of integers is read as the clauses
      the integers close. */
  /** Non-empty lines of `i32` values. */
  predicate IntRows(xss: seq<seq<int>>)
  {
    (forall i :: 0 <= i < |xss| ==> |xss[i]| > 0)
    && forall i, j :: 0 <= i < |xss| && 0 <= j < |xss[i]| ==> I32Min <= xss[i][j] <= I32Max
  }

  lemma ReadIntLines(h: Header, xss: seq<seq<int>>, cs: seq<Clause>)
    requires h.varCount <= UsizeMax && h.clauseCount <= UsizeMax
    requires IntRows(xss)
    requires FeedAll(Start, Flatten(xss)).closed == cs && |cs| == h.clauseCount
    ensures WellFormed(Problem(h.varCount, cs)) ==>
      ReadLines([HeaderLine(h)] + IntLines(xss)) == Ok(Problem(h.varCount, cs))
    ensures ReadLinesOld([HeaderLine(h)] + IntLines(xss)) == Ok(Problem(h.varCount, cs))
  {
    var ls := [HeaderLine(h)] + IntLines(xss);
    HeaderLineShape(h);
    HeaderRoundTrip(h);
    assert ls[1..] == IntLines(xss);
    assert FindHeader(ls) == Ok(Preamble(h, IntLines(xss)));
    FeedIntLines(Start, xss, true);
    FeedIntLines(Start, xss, false);
  }

  /** The problem lines of the unit tests, as the renderings they are. */
  lemma TestHeaders()
    ensures HeaderLine(Header(2, 2)) == "p cnf 2 2" && HeaderLine(Header(1, 1)) == "p cnf 1 1"
  {
    NatStrings();
  }

  /** The clause lines of the `basic` test. */
  lemma BasicRenderings()
    ensures IntLine([1, 2, 0]) == "1 2 0" && IntLine([1, -2, 0]) == "1 -2 0"
  {
    NatStrings();
    UnwordsOfThree("1", "2", "0");
    UnwordsOfThree("1", "-2", "0");
    assert Tokens([1, 2, 0]) == ["1", "2", "0"];
    assert Tokens([1, -2, 0]) == ["1", "-2", "0"];
  }

  /** The clause lines of the `split` test. */
  lemma SplitRenderings()
    ensures IntLine([1, 1]) == "1 1" && IntLine([-1, -1, 0]) == "-1 -1 0"
  {
    NatStrings();
    UnwordsOfTwo("1", "1");
    UnwordsOfThree("-1", "-1", "0");
    assert Tokens([1, 1]) == ["1", "1"];
    assert Tokens([-1, -1, 0]) == ["-1", "-1", "0"];
  }

  lemma TestLinesAreLines()
    ensures IsLine("c whatever") && IsLine("p cnf 2 2") && IsLine("p cnf 1 1")
    ensures IsLine("1 2 0") && IsLine("1 1") && '\n' !in "1 -2 0" && '\n' !in "-1 -1 0"
  {
  }

  /** Four lines, the last without a newline. */
  lemma FourLines(input: string, a: string, b: string, c: string, d: string)
    requires IsLine(a) && IsLine(b) && IsLine(c) && |d| > 0 && '\n' !in d
    requires input == a + "\n" + b + "\n" + c + "\n" + d
    ensures Lines(input) == [a, b, c, d]
  {
    UnlinesOfThree(a, b, c);
    assert input == Unlines([a, b, c]) + d;
    LinesUnlines([a, b, c], d);
    LinesSingle(d);
  }

  lemma FlattenTwo(a: seq<int>, b: seq<int>)
    ensures Flatten([a, b]) == a + b
  {
    assert [a, b][1..] == [b];
    assert [b][1..] == [];
    assert Flatten([b]) == b + [];
  }

  lemma Join0Two(a: Clause, b: Clause)
    ensures Join0([a]) == a + [0]
    ensures Join0([a, b]) == a + [0] + b + [0]
  {
    assert [a][..0] == [];
    assert [a, b][..1] == [a];
    assert Join0([a]) == [] + a + [0];
  }

  lemma BasicFeed(xss: seq<seq<int>>, cs: seq<Clause>)
    requires xss == [[1, 2, 0], [1, -2, 0]] && cs == [[1, 2], [1, -2]]
    ensures FeedAll(Start, Flatten(xss)).closed == cs
    ensures IntRows(xss)
    ensures WellFormed(Problem(2, cs))
  {
    FlattenTwo(xss[0], xss[1]);
    Join0Two(cs[0], cs[1]);
    assert Flatten(xss) == Join0(cs) + [];
    FeedJoin(cs, []);
  }

  lemma BasicLinesRead(ls: seq<string>)
    requires ls == ["c whatever", "p cnf 2 2", "1 2 0", "1 -2 0"]
    ensures ReadLines(ls) == Ok(Problem(2, [[1, 2], [1, -2]]))
    ensures ReadLinesOld(ls) == Ok(Problem(2, [[1, 2], [1, -2]]))
  {
    var xss := [[1, 2, 0], [1, -2, 0]];
    var cs := [[1, 2], [1, -2]];
    var body := IntLines(xss);
    TestHeaders();
    BasicRenderings();
    assert body == [IntLine(xss[0]), IntLine(xss[1])];
    assert ls == ["c whatever"] + ([HeaderLine(Header(2, 2))] + body);
    CommentSkipped("c whatever", [HeaderLine(Header(2, 2))] + body);
    BasicFeed(xss, cs);
    ReadIntLines(Header(2, 2), xss, cs);
  }

  /** The `basic` test of both readers: the comment is skipped and the two
      clauses are read as written. */
  lemma BasicTest(input: string)
    requires input == BasicInput
    ensures ReadProblem(input) == Ok(Problem(2, [[1, 2], [1, -2]]))
    ensures ReadProblemOld(input) == Ok(Problem(2, [[1, 2], [1, -2]]))
  {
    assert input == "c whatever" + "\n" + "p cnf 2 2" + "\n" + "1 2 0" + "\n" + "1 -2 0";
    TestLinesAreLines();
    FourLines(input, "c whatever", "p cnf 2 2", "1 2 0", "1 -2 0");
    BasicLinesRead(Lines(input));
  }

  lemma SplitFeed(xss: seq<seq<int>>, cs: seq<Clause>)
    requires xss == [[1, 1], [-1, -1, 0]] && cs == [[1, 1, -1, -1]]
    ensures FeedAll(Start, Flatten(xss)).closed == cs
    ensures IntRows(xss)
    ensures WellFormed(Problem(1, cs))
  {
    FlattenTwo(xss[0], xss[1]);
    Join0Two(cs[0], []);
    assert Flatten(xss) == Join0(cs) + [];
    FeedJoin(cs, []);
  }

  lemma SplitLinesRead(ls: seq<string>)
    requires ls == ["c whatever", "p cnf 1 1", "1 1", "-1 -1 0"]
    ensures ReadLines(ls) == Ok(Problem(1, [[1, 1, -1, -1]]))
    ensures ReadLinesOld(ls) == Ok(Problem(1, [[1, 1, -1, -1]]))
  {
    var xss := [[1, 1], [-1, -1, 0]];
    var cs := [[1, 1, -1, -1]];
    var body := IntLines(xss);
    TestHeaders();
    SplitRenderings();
    assert body == [IntLine(xss[0]), IntLine(xss[1])];
    assert ls == ["c whatever"] + ([HeaderLine(Header(1, 1))] + body);
    CommentSkipped("c whatever", [HeaderLine(Header(1, 1))] + body);
    SplitFeed(xss, cs);
    ReadIntLines(Header(1, 1), xss, cs);
  }

  /** The `split` test of both readers: a clause spanning two lines. */
  lemma SplitTest(input: string)
    requires input == SplitInput
    ensures ReadProblem(input) == Ok(Problem(1, [[1, 1, -1, -1]]))
    ensures ReadProblemOld(input) == Ok(Problem(1, [[1, 1, -1, -1]]))
  {
    assert input == "c whatever" + "\n" + "p cnf 1 1" + "\n" + "1 1" + "\n" + "-1 -1 0";
    TestLinesAreLines();
    FourLines(input, "c whatever", "p cnf 1 1", "1 1", "-1 -1 0");
    SplitLinesRead(Lines(input));
  }
}
