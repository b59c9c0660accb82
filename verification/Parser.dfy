/** The parser of balanced-ternary string literals. */
module Parser {
  import opened Wrappers
  import opened CArith
  import opened Trits
  import opened TritLogic
  import opened Words
  import opened WordLaws
  import Ops = PackedOps
  import R = Runtime

  // The grammar, from the side of the writer

  /** A literal is a run of separators and trit tokens. */
  datatype Piece = Skip(c: char) | Token(trit: Trit, plus: bool)

  const NUL := '\0'

  predicate IsSkip(c: char) {
    c == ' ' || c == '\t' || c == '\n' || c == '\r' || c == '\U{0B}' || c == '\U{0C}' || c == ','
  }

  predicate ValidPiece(p: Piece) {
    p.Skip? ==> IsSkip(p.c)
  }

  function Text(p: Piece): string {
    match p
    case Skip(c) => [c]
    case Token(t, plus) => if t == 0 then "0" else if t < 0 then "-1" else if plus then "+1" else "1"
  }

  function Flatten(ps: seq<Piece>): string {
    if ps == [] then "" else Text(ps[0]) + Flatten(ps[1..])
  }

  function PieceTrits(p: Piece): seq<Trit> {
    if p.Token? then [p.trit] else []
  }

  function TokensOf(ps: seq<Piece>): seq<Trit> {
    if ps == [] then []
    else PieceTrits(ps[0]) + TokensOf(ps[1..])
  }

  ghost predicate Valid(ps: seq<Piece>) {
    forall p :: p in ps ==> ValidPiece(p)
  }

  // The same grammar, from the side of the reader

  /** The next piece of a non-empty text. A char past the end reads as NUL. */
  function Next(s: string): Option<Piece>
    requires s != []
  {
    var follow := if |s| > 1 then s[1] else NUL;
    if IsSkip(s[0]) then Some(Skip(s[0]))
    else if s[0] == '0' then Some(Token(0, false))
    else if s[0] == '1' then Some(Token(1, false))
    else if s[0] == '+' && follow == '1' then Some(Token(1, true))
    else if s[0] == '-' && follow == '1' then Some(Token(-1, false))
    else None
  }

  lemma NextLength(s: string)
    requires s != [] && Next(s).Some?
    ensures Text(Next(s).value) <= s && 1 <= |Text(Next(s).value)| && ValidPiece(Next(s).value)
  {
  }

  /** What a reader gets from a text: the tokens up to the end or the first fault, and
      whether the end was reached. */
  datatype Reading = Reading(tokens: seq<Trit>, complete: bool)

  function Prefixed(ts: seq<Trit>, r: Reading): Reading {
    r.(tokens := ts + r.tokens)
  }

  /** Read a C string, up to its NUL. */
  function Lex(s: string): Reading
    decreases |s|
  {
    if s == [] || s[0] == NUL then Reading([], true)
    else if Next(s) == None then Reading([], false)
    else
      NextLength(s);
      Prefixed(PieceTrits(Next(s).value), Lex(s[|Text(Next(s).value)|..]))
  }

  /** The reader finds the piece the writer put first. */
  lemma NextText(p: Piece, rest: string)
    requires ValidPiece(p)
    ensures var s := Text(p) + rest;
      s[0] != NUL && Next(s).Some? && |Text(Next(s).value)| == |Text(p)| &&
      PieceTrits(Next(s).value) == PieceTrits(p) && s[|Text(p)|..] == rest
  {
  }

  /** Everything the grammar writes is read back, token for token. */
  lemma {:induction false} LexReads(ps: seq<Piece>)
    requires Valid(ps)
    ensures Lex(Flatten(ps)) == Reading(TokensOf(ps), true)
  {
    if ps != [] {
      hide Text, Next, PieceTrits;
      assert ValidPiece(ps[0]);
      NextText(ps[0], Flatten(ps[1..]));
      LexReads(ps[1..]);
    }
  }

  lemma LexUnfold(s: string)
    requires s != [] && s[0] != NUL && Lex(s).complete
    ensures Next(s).Some? && |Text(Next(s).value)| <= |s|
    ensures Lex(s) == Prefixed(PieceTrits(Next(s).value), Lex(s[|Text(Next(s).value)|..]))
  {
    if Next(s).Some? {
      NextLength(s);
    }
  }

  /** Nothing else is: a string without NUL that is read was written by the grammar. */
  lemma {:induction false} LexSound(s: string) returns (ps: seq<Piece>)
    requires NUL !in s && Lex(s).complete
    ensures Valid(ps) && Flatten(ps) == s && TokensOf(ps) == Lex(s).tokens
    decreases |s|
  {
    ps := [];
    if s != [] {
      LexUnfold(s);
      hide *;
      NextLength(s);
      var p := Next(s).value;
      LexRest(s, p);
      var qs := LexSound(s[|Text(p)|..]);
      ps := [p] + qs;
      PieceBack(s, p, qs);
    }
  }

  lemma LexRest(s: string, p: Piece)
    requires |Text(p)| <= |s| && NUL !in s
    requires Lex(s) == Prefixed(PieceTrits(p), Lex(s[|Text(p)|..]))
    ensures NUL !in s[|Text(p)|..] && Lex(s[|Text(p)|..]).complete == Lex(s).complete
  {
    hide Lex;
  }

  lemma PieceBack(s: string, p: Piece, qs: seq<Piece>)
    requires Text(p) <= s && ValidPiece(p) && Valid(qs)
    requires Flatten(qs) == s[|Text(p)|..] && TokensOf(qs) == Lex(s[|Text(p)|..]).tokens
    requires Lex(s) == Prefixed(PieceTrits(p), Lex(s[|Text(p)|..]))
    ensures Valid([p] + qs) && Flatten([p] + qs) == s && TokensOf([p] + qs) == Lex(s).tokens
  {
    hide Lex, Text, PieceTrits, ValidPiece;
    assert ([p] + qs)[1..] == qs;
    assert s == Text(p) + s[|Text(p)|..];
  }

  // Accumulation in int64_t

  /** `Undefined` is a signed overflow the guard lets through. */
  datatype Outcome = Rejected | Undefined | Parsed(value: int)

  /** One token: the overflow guard, then the product, then the sum. */
  function Step(acc: int, trit: Trit): Outcome {
    if trit >= 0 && acc > TruncDiv(INT64_MAX - trit, 3) then Rejected
    else if trit < 0 && acc < TruncDiv(INT64_MIN - trit, 3) then Rejected
    else if !Fits64(acc * 3) || !Fits64(acc * 3 + trit) then Undefined
    else Parsed(acc * 3 + trit)
  }

  /** The tokens from the left, that is most significant first. */
  function Accumulate(ts: seq<Trit>): Outcome {
    if ts == [] then Parsed(0)
    else
      match Accumulate(ts[..|ts| - 1])
      case Parsed(acc) => Step(acc, ts[|ts| - 1])
      case other => other
  }

  lemma AccumulateSnoc(ts: seq<Trit>, t: Trit)
    ensures Accumulate(ts + [t])
         == if Accumulate(ts).Parsed? then Step(Accumulate(ts).value, t) else Accumulate(ts)
  {
    assert (ts + [t])[..|ts|] == ts;
  }

  lemma AccumulateNone()
    ensures Accumulate([]) == Parsed(0)
  {
  }

  lemma {:induction false} AccumulateStops(ts: seq<Trit>, us: seq<Trit>)
    requires !Accumulate(ts).Parsed?
    ensures Accumulate(ts + us) == Accumulate(ts)
    decreases |us|
  {
    if us == [] {
      assert ts + us == ts;
    } else {
      var m := |us| - 1;
      AccumulateStops(ts, us[..m]);
      AccumulateSnoc(ts + us[..m], us[m]);
      assert ts + us == ts + us[..m] + [us[m]];
    }
  }

  /** What the guard does: it rejects the overflow on the token's own side exactly, and
      lets through the one on the other side. */
  lemma StepExact(acc: int, trit: Trit)
    requires Fits64(acc)
    ensures Step(acc, trit) == Rejected <==>
      (trit >= 0 && 3 * acc + trit > INT64_MAX) || (trit < 0 && 3 * acc + trit < INT64_MIN)
    ensures Step(acc, trit) == Undefined <==>
      (trit >= 0 && 3 * acc < INT64_MIN) || (trit < 0 && 3 * acc > INT64_MAX)
    ensures Step(acc, trit).Parsed? ==> Step(acc, trit).value == 3 * acc + trit
  {
  }

  function Reverse(ts: seq<Trit>): (r: seq<Trit>)
    ensures |r| == |ts|
  {
    seq(|ts|, i requires 0 <= i < |ts| => ts[|ts| - 1 - i])
  }

  /** The value of a numeral written most significant trit first. */
  function ValMsb(ts: seq<Trit>): int {
    Val(Reverse(ts))
  }

  lemma ValMsbSnoc(ts: seq<Trit>, t: Trit)
    ensures ValMsb(ts + [t]) == 3 * ValMsb(ts) + t
  {
    assert Reverse(ts + [t])[1..] == Reverse(ts);
  }

  /** The tokens read so far, and the running product before each of them, stay in range. */
  predicate PrefixesFit(ts: seq<Trit>) {
    forall k: nat :: k < |ts| ==> PrefixFits(ts, k)
  }

  predicate PrefixFits(ts: seq<Trit>, k: nat)
    requires k < |ts|
  {
    Fits64(3 * ValMsb(ts[..k])) && Fits64(ValMsb(ts[..k + 1]))
  }

  /** Accumulation gives a value exactly when every prefix fits, and then it is the value
      of the numeral. */
  lemma {:induction false} AccumulateExact(ts: seq<Trit>)
    ensures Accumulate(ts).Parsed? <==> PrefixesFit(ts)
    ensures Accumulate(ts).Parsed? ==> Accumulate(ts) == Parsed(ValMsb(ts)) && Fits64(ValMsb(ts))
  {
    if ts != [] {
      var m := |ts| - 1;
      var us, t := ts[..m], ts[m];
      assert us + [t] == ts && ts[..m + 1] == ts;
      AccumulateExact(us);
      ValMsbSnoc(us, t);
      PrefixesSnoc(ts);
      if Accumulate(us).Parsed? {
        StepExact(ValMsb(us), t);
      }
    }
  }

  lemma PrefixesSnoc(ts: seq<Trit>)
    requires ts != []
    ensures PrefixesFit(ts) <==> PrefixesFit(ts[..|ts| - 1]) && PrefixFits(ts, |ts| - 1)
  {
    var m := |ts| - 1;
    forall k: nat | k < m ensures PrefixFits(ts[..m], k) <==> PrefixFits(ts, k) {
      assert ts[..m][..k] == ts[..k] && ts[..m][..k + 1] == ts[..k + 1];
    }
  }

  /** Forty tokens or fewer always fit. */
  lemma {:induction false} FortyFit(ts: seq<Trit>)
    requires |ts| <= 40
    ensures Accumulate(ts) == Parsed(ValMsb(ts))
  {
    forall k: nat | k < |ts| ensures PrefixFits(ts, k) {
      ValBound(Reverse(ts[..k]));
      ValBound(Reverse(ts[..k + 1]));
      Pow3Constants();
      Pow3Mono(k, 39);
      Pow3Mono(k + 1, 40);
    }
    AccumulateExact(ts);
  }

  /** Beyond forty they may not: forty tokens -1 and then a 0 overflow past the guard,
      forty tokens 1 and then a 1 are rejected. */
  lemma FortyOneMayNot()
    ensures Accumulate(seq(40, _ => -1 as Trit) + [0]) == Undefined
    ensures Accumulate(seq(40, _ => 1 as Trit) + [1]) == Rejected
  {
    var a, b := seq(40, _ => -1 as Trit), seq(40, _ => 1 as Trit);
    ConstantMsb(a, -1);
    ConstantMsb(b, 1);
    Pow3Constants();
    FortyFit(a);
    FortyFit(b);
    AccumulateSnoc(a, 0);
    AccumulateSnoc(b, 1);
    StepExact(ValMsb(a), 0);
    StepExact(ValMsb(b), 1);
  }

  lemma {:induction false} ConstantMsb(ts: seq<Trit>, t: Trit)
    requires forall i :: 0 <= i < |ts| ==> ts[i] == t
    ensures ValMsb(ts) == t * MaxAbs(|ts|)
  {
    if ts != [] {
      var m := |ts| - 1;
      assert ts == ts[..m] + [t];
      ConstantMsb(ts[..m], t);
      ValMsbSnoc(ts[..m], t);
      MulDistrib(3 * MaxAbs(m), 1, t);
      MulAssoc(t, 3, MaxAbs(m));
    }
  }

  // The parser

  /** What the parser makes of a reading: the first overflow decides, then a fault or the
      absence of tokens. */
  function Verdict(r: Reading): Outcome {
    var o := Accumulate(r.tokens);
    if !o.Parsed? then o
    else if r.complete && r.tokens != [] then o
    else Rejected
  }

  method TernaryParseBtStr(s: string) returns (r: Outcome)
    ensures r == Verdict(Lex(s))
  {
    hide Lex, Prefixed, Accumulate, Step;
    var acc := 0;
    var saw := false;
    var i := 0;
    ghost var done: seq<Trit> := [];
    LexStarts(s);
    AccumulateNone();
    while i < |s| && s[i] != NUL
      invariant i <= |s|
      invariant Lex(s) == Prefixed(done, Lex(s[i..]))
      invariant Accumulate(done) == Parsed(acc)
      invariant saw == (done != [])
    {
      var c := s[i];
      var follow := if i + 1 < |s| then s[i + 1] else NUL;
      var trit: Trit := 0;
      LexStep(s, i, done);
      if c == ' ' || c == '\t' || c == '\n' || c == '\r' || c == '\U{0B}' || c == '\U{0C}' {
        i := i + 1;
        continue;
      }
      if c == ',' {
        i := i + 1;
        continue;
      }
      if c == '0' {
        trit := 0;
        i := i + 1;
      } else if c == '1' {
        trit := 1;
        i := i + 1;
      } else if c == '+' && follow == '1' {
        trit := 1;
        i := i + 2;
      } else if c == '-' && follow == '1' {
        trit := -1;
        i := i + 2;
      } else {
        return Rejected;
      }
      saw := true;
      AccumulateSnoc(done, trit);
      done := done + [trit];
      var step := Step(acc, trit);
      if !step.Parsed? {
        Stopped(s, i, done);
        return step;
      }
      acc := step.value;
    }
    LexEnds(s, i, done);
    r := if saw then Parsed(acc) else Rejected;
  }

  function Advance(done: seq<Trit>, p: Piece): seq<Trit> {
    if p.Token? then done + [p.trit] else done
  }

  lemma LexStep(s: string, i: nat, done: seq<Trit>)
    requires i < |s| && s[i] != NUL
    requires Lex(s) == Prefixed(done, Lex(s[i..]))
    ensures Next(s[i..]) == None ==> Lex(s) == Reading(done, false)
    ensures Next(s[i..]).Some? ==> var p := Next(s[i..]).value;
      i + |Text(p)| <= |s| && Lex(s) == Prefixed(Advance(done, p), Lex(s[i + |Text(p)|..]))
  {
    var u := s[i..];
    assert u != [] && u[0] != NUL;
    if Next(u).Some? {
      hide Text, Next;
      NextLength(u);
      var p := Next(u).value;
      assert u[|Text(p)|..] == s[i + |Text(p)|..];
      ConcatAssoc(done, PieceTrits(p), Lex(u[|Text(p)|..]).tokens);
      assert done + PieceTrits(p) == Advance(done, p);
    } else {
      assert done + [] == done;
    }
  }

  lemma Stopped(s: string, i: nat, done: seq<Trit>)
    requires i <= |s| && Lex(s) == Prefixed(done, Lex(s[i..]))
    requires !Accumulate(done).Parsed?
    ensures Accumulate(Lex(s).tokens) == Accumulate(done)
  {
    AccumulateStops(done, Lex(s[i..]).tokens);
  }

  lemma LexEnds(s: string, i: nat, done: seq<Trit>)
    requires i <= |s| && (i == |s| || s[i] == NUL) && Lex(s) == Prefixed(done, Lex(s[i..]))
    ensures Lex(s) == Reading(done, true)
  {
    assert Lex(s[i..]) == Reading([], true);
    assert done + [] == done;
  }

  lemma LexStarts(s: string)
    ensures Lex(s) == Prefixed([], Lex(s[0..]))
  {
    assert s[0..] == s && [] + Lex(s).tokens == Lex(s).tokens;
  }

  // The literal helper

  /** The numeral on exactly n trits: cut off above, filled with 0. */
  function Resize(ts: seq<Trit>, n: nat): (r: seq<Trit>)
    ensures |r| == n
  {
    seq(n, i requires 0 <= i < n => if i < |ts| then ts[i] else 0)
  }

  lemma ExpandResize(ts: seq<Trit>, n: nat)
    ensures Expand(Val(ts), n) == Resize(ts, n)
  {
    var r := Resize(ts, n);
    if |ts| <= n {
      var z := Repeat(0, n - |ts|);
      assert r == ts + z;
      ValAppend(ts, z);
      ZeroVal(n - |ts|);
      ExpandVal(r);
    } else {
      assert r == ts[..n];
      ValSplit(ts, n);
      MulComm(Pow3(n), Val(ts[n..]));
      CongIntro(Val(ts), Val(r), Pow3(n), Val(ts[n..]));
      ExpandIs(Val(ts), r);
    }
  }

  /** None where the C helper has no defined result; word 0 for a rejected literal. */
  function BtStr(s: string): Option<nat> {
    match Verdict(Lex(s))
    case Undefined => None
    case Rejected => Some(0)
    case Parsed(v) => Some(Ops.Encode(v, 32))
  }

  method BtStrT32(s: string) returns (r: Option<nat>)
    ensures r == BtStr(s)
  {
    var p := TernaryParseBtStr(s);
    match p
    case Rejected =>
      r := Some(0);
    case Undefined =>
      r := None;
    case Parsed(value) =>
      AccumulateExact(Lex(s).tokens);
      var word := R.TernaryEncode(value as int64, 32);
      r := Some(word);
  }

  lemma BtStrWord(s: string)
    requires Lex(s).complete && 1 <= |Lex(s).tokens| <= 40
    ensures BtStr(s) == Some(Pack(Resize(Reverse(Lex(s).tokens), 32)))
  {
    FortyFit(Lex(s).tokens);
    ExpandResize(Reverse(Lex(s).tokens), 32);
  }

  lemma PackGet(ts: seq<Trit>, i: nat)
    requires i < |ts|
    ensures GetTrit(Pack(ts), i) == ts[i]
  {
    GetPack(ts, i);
  }

  /** A well-formed literal of 1 to 40 tokens, however it is spaced, always has a word, and
      trit i of that word is the i-th token from the right, 0 beyond the literal. */
  lemma LiteralPlacesTokens(ps: seq<Piece>)
    requires Valid(ps) && 1 <= |TokensOf(ps)| <= 40
    ensures BtStr(Flatten(ps)) == Some(Pack(Resize(Reverse(TokensOf(ps)), 32)))
    ensures forall i: nat :: i < 32 ==>
      GetTrit(BtStr(Flatten(ps)).value, i) == if i < |TokensOf(ps)| then TokensOf(ps)[|TokensOf(ps)| - 1 - i] else 0
  {
    hide Lex, Flatten, BtStr, Pack, GetTrit, TokensOf;
    LexReads(ps);
    BtStrWord(Flatten(ps));
    var r := Resize(Reverse(TokensOf(ps)), 32);
    forall i: nat | i < 32 ensures GetTrit(Pack(r), i) == r[i] {
      PackGet(r, i);
    }
  }

  /** The parser accepts exactly the strings the grammar writes with at least one token and
      with every prefix in range, and gives the value of the numeral. */
  lemma {:induction false} ParsedIff(s: string)
    requires NUL !in s
    ensures Verdict(Lex(s)).Parsed? <==>
      exists ps: seq<Piece> :: Valid(ps) && Flatten(ps) == s && TokensOf(ps) != [] && PrefixesFit(TokensOf(ps))
    ensures Verdict(Lex(s)).Parsed? ==> Verdict(Lex(s)) == Parsed(ValMsb(Lex(s).tokens))
  {
    AccumulateExact(Lex(s).tokens);
    if Verdict(Lex(s)).Parsed? {
      var ps := LexSound(s);
    }
    forall ps: seq<Piece> | Valid(ps) && Flatten(ps) == s && TokensOf(ps) != [] && PrefixesFit(TokensOf(ps))
      ensures Verdict(Lex(s)).Parsed?
    {
      LexReads(ps);
    }
  }

  // The helper's result, from the grammar alone

  /** The text ends here. */
  predicate Ended(rest: string) {
    rest == "" || rest[0] == NUL
  }

  /** The text goes on, but with nothing the grammar writes. */
  ghost predicate Stuck(rest: string) {
    !Ended(rest) && forall p: Piece :: ValidPiece(p) ==> !(Text(p) <= rest)
  }

  lemma StuckNext(rest: string)
    requires !Ended(rest)
    ensures Stuck(rest) <==> Next(rest) == None
  {
    if Next(rest).Some? {
      NextLength(rest);
    } else {
      forall p: Piece | ValidPiece(p) ensures !(Text(p) <= rest) {
        NextNone(p, rest);
      }
    }
  }

  lemma NextNone(p: Piece, s: string)
    requires s != "" && ValidPiece(p) && Next(s) == None
    ensures !(Text(p) <= s)
  {
  }

  /** Every text is what the grammar writes, then its end or something else. */
  lemma {:induction false} SplitText(s: string) returns (ps: seq<Piece>, rest: string)
    ensures Valid(ps) && s == Flatten(ps) + rest && (Ended(rest) || Stuck(rest))
    decreases |s|
  {
    ps, rest := [], s;
    assert s == Flatten([]) + s;
    if !Ended(s) {
      StuckNext(s);
      if Next(s).Some? {
        hide *;
        NextLength(s);
        var p := Next(s).value;
        var qs;
        qs, rest := SplitText(s[|Text(p)|..]);
        ps := [p] + qs;
        SplitCons(s, p, qs, rest);
      }
    }
  }

  lemma SplitCons(s: string, p: Piece, qs: seq<Piece>, rest: string)
    requires Text(p) <= s && ValidPiece(p) && Valid(qs) && s[|Text(p)|..] == Flatten(qs) + rest
    ensures Valid([p] + qs) && s == Flatten([p] + qs) + rest
  {
    hide Text, ValidPiece;
    assert ([p] + qs)[1..] == qs;
    assert s == Text(p) + s[|Text(p)|..];
    assert Text(p) + (Flatten(qs) + rest) == Text(p) + Flatten(qs) + rest;
  }

  /** Reading finds exactly that. */
  lemma {:induction false} LexPieces(ps: seq<Piece>, rest: string)
    requires Valid(ps) && (Ended(rest) || Stuck(rest))
    ensures Lex(Flatten(ps) + rest) == Reading(TokensOf(ps), Ended(rest))
  {
    if ps == [] {
      assert Flatten(ps) + rest == rest;
      if !Ended(rest) {
        StuckNext(rest);
      }
    } else {
      hide Text, Next, PieceTrits, Stuck;
      var tail := Flatten(ps[1..]) + rest;
      assert ValidPiece(ps[0]);
      assert Flatten(ps) + rest == Text(ps[0]) + tail;
      NextText(ps[0], tail);
      LexPieces(ps[1..], rest);
    }
  }

  /** Token k is the first to leave int64_t. */
  predicate FirstOverflow(ts: seq<Trit>, k: nat) {
    k < |ts| && PrefixesFit(ts[..k]) && !PrefixFits(ts, k)
  }

  /** The new accumulator leaves it on the side of the token's sign; otherwise the product
      alone left it on the other side. */
  predicate OwnSide(acc: int, trit: Trit) {
    (trit >= 0 && 3 * acc + trit > INT64_MAX) || (trit < 0 && 3 * acc + trit < INT64_MIN)
  }

  lemma {:induction false} OverflowExists(ts: seq<Trit>) returns (k: nat)
    requires !PrefixesFit(ts)
    ensures FirstOverflow(ts, k)
  {
    var m := |ts| - 1;
    PrefixesSnoc(ts);
    if PrefixesFit(ts[..m]) {
      k := m;
    } else {
      k := OverflowExists(ts[..m]);
      assert ts[..m][..k] == ts[..k] && ts[..m][..k + 1] == ts[..k + 1];
    }
  }

  lemma OverflowDecides(ts: seq<Trit>, k: nat)
    requires FirstOverflow(ts, k)
    ensures Accumulate(ts) == if OwnSide(ValMsb(ts[..k]), ts[k]) then Rejected else Undefined
  {
    hide ValMsb, Accumulate, Step;
    var us, vs := ts[..k], ts[..k + 1];
    assert vs[..k] == us && vs == us + [ts[k]] && ts == vs + ts[k + 1..];
    AccumulateExact(us);
    AccumulateExact(vs);
    PrefixesSnoc(vs);
    AccumulateSnoc(us, ts[k]);
    StepExact(ValMsb(us), ts[k]);
    AccumulateStops(vs, ts[k + 1..]);
  }

  /** The helper on any string at all, split as above. While every prefix fits, a literal that
      ends with at least one token gives the numeral's word, and anything else the word 0,
      which is the lowest value. The first overflow decides by itself: word 0 on the token's
      own side, no defined result on the other. */
  lemma {:induction false} LiteralResult(ps: seq<Piece>, rest: string)
    requires Valid(ps) && (Ended(rest) || Stuck(rest))
    ensures PrefixesFit(TokensOf(ps)) ==>
      BtStr(Flatten(ps) + rest) == Some(if Ended(rest) && TokensOf(ps) != [] then Ops.Encode(ValMsb(TokensOf(ps)), 32) else 0)
    ensures forall k: nat :: FirstOverflow(TokensOf(ps), k) ==>
      BtStr(Flatten(ps) + rest) == if OwnSide(ValMsb(TokensOf(ps)[..k]), TokensOf(ps)[k]) then Some(0) else None
    ensures Ops.Decode(0, 32) == -MaxAbs(32)
  {
    hide Lex, Flatten, TokensOf, Stuck, Accumulate, ValMsb, Ops.Encode, Ops.Decode, PrefixesFit, OwnSide, MaxAbs;
    var ts := TokensOf(ps);
    LexPieces(ps, rest);
    AccumulateExact(ts);
    forall k: nat | FirstOverflow(ts, k)
      ensures BtStr(Flatten(ps) + rest) == if OwnSide(ValMsb(ts[..k]), ts[k]) then Some(0) else None
    {
      OverflowDecides(ts, k);
    }
    WordZero(32);
  }

  /** The first overflow is on the other side. */
  predicate OverflowsUnseen(ts: seq<Trit>, k: nat) {
    FirstOverflow(ts, k) && !OwnSide(ValMsb(ts[..k]), ts[k])
  }

  ghost predicate SomeUnseen(ts: seq<Trit>) {
    exists k: nat :: OverflowsUnseen(ts, k)
  }

  /** The helper has no defined result exactly when there is such an overflow. */
  lemma UndefinedIff(ps: seq<Piece>, rest: string)
    requires Valid(ps) && (Ended(rest) || Stuck(rest))
    ensures BtStr(Flatten(ps) + rest) == None <==> SomeUnseen(TokensOf(ps))
  {
    hide *;
    LiteralResult(ps, rest);
    UnseenIff(TokensOf(ps), BtStr(Flatten(ps) + rest));
  }

  lemma UnseenIff(ts: seq<Trit>, out: Option<nat>)
    requires PrefixesFit(ts) ==> out.Some?
    requires forall k: nat :: FirstOverflow(ts, k) ==> out == if OwnSide(ValMsb(ts[..k]), ts[k]) then Some(0) else None
    ensures out == None <==> SomeUnseen(ts)
  {
    hide ValMsb, OwnSide, PrefixesFit, PrefixFits;
    if out == None {
      var k := OverflowExists(ts);
      assert FirstOverflow(ts, k);
      assert OverflowsUnseen(ts, k);
    }
  }

  /** The four tokens by themselves. */
  lemma OneToken()
    ensures BtStr("1") == BtStr("+1") == Some(Ops.Encode(1, 32))
    ensures BtStr("0") == Some(Ops.Encode(0, 32)) && BtStr("-1") == Some(Ops.Encode(-1, 32))
  {
    hide Ops.Encode;
    Single(Token(1, false));
    Single(Token(1, true));
    Single(Token(0, false));
    Single(Token(-1, false));
  }

  lemma Single(p: Piece)
    requires p.Token?
    ensures BtStr(Text(p)) == Some(Ops.Encode(p.trit, 32))
  {
    hide Lex, Ops.Encode, BtStr, Text;
    assert Flatten([p]) + "" == Text(p);
    assert TokensOf([p]) == [p.trit];
    FortyFit([p.trit]);
    AccumulateExact([p.trit]);
    assert Reverse([p.trit]) == [p.trit];
    assert Val([p.trit]) == p.trit;
    LiteralResult([p], "");
  }

  /** Which characters may stand between tokens. */
  lemma SeparatorIff(c: char, s: string)
    ensures c in " \t\n\r\U{0B}\U{0C}," ==> Lex([c] + s) == Lex(s)
    ensures c != NUL && c !in " \t\n\r\U{0B}\U{0C},01" ==> !Lex([c]).complete
  {
    var t := [c] + s;
    assert t[1..] == s;
    assert [] + Lex(s).tokens == Lex(s).tokens;
  }

  // Printing and reading back

  /** One token for each trit, most significant first. */
  function Print(ts: seq<Trit>): seq<Piece> {
    if ts == [] then [] else Print(ts[1..]) + [Token(ts[0], false)]
  }

  lemma ConcatAssoc(a: seq<Trit>, b: seq<Trit>, c: seq<Trit>)
    ensures a + (b + c) == a + b + c
  {
  }

  lemma {:induction false} TokensAppend(ps: seq<Piece>, p: Piece)
    requires p.Token?
    ensures TokensOf(ps + [p]) == TokensOf(ps) + [p.trit]
  {
    if ps == [] {
      assert (ps + [p])[1..] == [];
    } else {
      hide PieceTrits;
      assert (ps + [p])[1..] == ps[1..] + [p];
      TokensAppend(ps[1..], p);
      ConcatAssoc(PieceTrits(ps[0]), TokensOf(ps[1..]), [p.trit]);
    }
  }

  lemma {:induction false} PrintTokens(ts: seq<Trit>)
    ensures TokensOf(Print(ts)) == Reverse(ts) && Valid(Print(ts))
  {
    if ts != [] {
      PrintTokens(ts[1..]);
      TokensAppend(Print(ts[1..]), Token(ts[0], false));
      assert Reverse(ts) == Reverse(ts[1..]) + [ts[0]];
    }
  }

  /** Printing the trits of a word and reading the literal gives the word's canonical form,
      so the word itself exactly when it is canonical. */
  lemma PrintThenRead(w: nat)
    ensures BtStr(Flatten(Print(TritsOf(w, 32)))) == Some(Canon(w, 32))
    ensures BtStr(Flatten(Print(TritsOf(w, 32)))) == Some(w) <==> Canonical(w, 32)
  {
    var ts := TritsOf(w, 32);
    PrintTokens(ts);
    assert Resize(Reverse(Reverse(ts)), 32) == ts;
    CanonicalIff(w, 32);
    LiteralPlacesTokens(Print(ts));
  }
}
