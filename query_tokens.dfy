/**
 * The raw query lexer: splits a query string into free tokens (runs of
 * alphanumeric characters) and quoted tokens (everything between two `"`,
 * or after an unterminated `"`). Characters are one position wide, and
 * which characters are alphanumeric is a parameter of the lexer.
 */
module QueryTokens {
  import opened Wrappers

  datatype QueryToken = Free(text: string) | Quoted(text: string)

  /** Where the lexer stands: in free text or in a quoted token, each begun at
      `start`, or past the end of the input. */
  datatype State = Free(start: nat) | Quoted(start: nat) | Fused {
    predicate IsQuoted() {
      Quoted?
    }
  }

  /** The position range `[start, end)` of an emitted token. */
  datatype Span = Span(quoted: bool, start: nat, end: nat)

  /** What one call of `next` does: the token it emits (if any) and where it leaves the lexer. */
  datatype Step = Step(span: Option<Span>, state: State, pos: nat)

  /** A started token does not begin after the current position. */
  predicate StartOk(st: State, pos: nat) {
    !st.Fused? ==> st.start <= pos
  }

  predicate SpanIn(q: string, sp: Span) {
    sp.start <= sp.end <= |q|
  }

  function TokenOf(q: string, sp: Span): QueryToken
    requires SpanIn(q, sp)
  {
    if sp.quoted then QueryToken.Quoted(q[sp.start..sp.end]) else QueryToken.Free(q[sp.start..sp.end])
  }

  /** One call of `next` from state `st` with the characters before `pos` consumed. */
  function NextStep(q: string, isAlnum: char -> bool, st: State, pos: nat): (r: Step)
    requires pos <= |q| && StartOk(st, pos)
    ensures pos <= r.pos <= |q| && StartOk(r.state, r.pos)
    ensures r.span.Some? ==> SpanIn(q, r.span.value)
    ensures r.span.Some? ==> r.pos > pos || (pos == |q| && !st.Fused? && r.state.Fused?)
    decreases |q| - pos
  {
    if pos == |q| then
      match st
      case Free(s) => Step(if s < |q| then Some(Span(false, s, |q|)) else None, Fused, pos)
      case Quoted(s) => Step(Some(Span(true, s, |q|)), Fused, pos)
      case Fused => Step(None, Fused, pos)
    else
      var i, c := pos, q[pos];
      if c == '"' then
        match st
        case Quoted(s) => Step(Some(Span(true, s, i)), State.Free(i + 1), i + 1)
        case Free(s) =>
          if i > s then Step(Some(Span(false, s, i)), State.Quoted(i + 1), i + 1)
          else NextStep(q, isAlnum, State.Quoted(i + 1), i + 1)
        case Fused => Step(None, State.Free(i + 1), i + 1)
      else if !st.IsQuoted() && !isAlnum(c) then
        if st.Free? && i > st.start then Step(Some(Span(false, st.start, i)), State.Free(i + 1), i + 1)
        else NextStep(q, isAlnum, State.Free(i + 1), i + 1)
      else
        NextStep(q, isAlnum, st, i + 1)
  }

  /** The spans of every token `next` emits until it first returns `None`. */
  function Spans(q: string, isAlnum: char -> bool, st: State, pos: nat): (sp: seq<Span>)
    requires pos <= |q| && StartOk(st, pos)
    ensures forall j :: 0 <= j < |sp| ==> SpanIn(q, sp[j])
    decreases |q| - pos, if st.Fused? then 0 else 1
  {
    var r := NextStep(q, isAlnum, st, pos);
    if r.span.None? then [] else [r.span.value] + Spans(q, isAlnum, r.state, r.pos)
  }

  /** The tokens of a whole query, as repeated calls of `next` on a fresh lexer give them. */
  function Tokenize(q: string, isAlnum: char -> bool): seq<QueryToken> {
    var sp := Spans(q, isAlnum, State.Free(0), 0);
    seq(|sp|, j requires 0 <= j < |sp| => TokenOf(q, sp[j]))
  }

  // ---------------------------------------------------------------------------
  // What the lexer guarantees

  /** A character that may sit inside a free token. */
  predicate IsWordChar(isAlnum: char -> bool, c: char) {
    c != '"' && isAlnum(c)
  }

  /** The states reachable from a fresh lexer: a free token extends over word
      characters from just after a break, a quoted token over non-quote
      characters from just after a `"`, and `Fused` only at the end. */
  ghost predicate Inv(q: string, isAlnum: char -> bool, st: State, pos: nat) {
    && pos <= |q|
    && match st
       case Free(s) =>
         && s <= pos
         && (s == 0 || !IsWordChar(isAlnum, q[s - 1]))
         && (forall k :: s <= k < pos ==> IsWordChar(isAlnum, q[k]))
       case Quoted(s) =>
         && 1 <= s <= pos
         && q[s - 1] == '"'
         && (forall k :: s <= k < pos ==> q[k] != '"')
       case Fused => pos == |q|
  }

  /** A free span is a maximal non-empty run of word characters; a quoted span
      follows a `"`, holds no `"`, and ends at a `"` or at the end of the input. */
  ghost predicate SpanOk(q: string, isAlnum: char -> bool, sp: Span) {
    && SpanIn(q, sp)
    && (!sp.quoted ==>
          && sp.start < sp.end
          && (forall k :: sp.start <= k < sp.end ==> IsWordChar(isAlnum, q[k]))
          && (sp.start == 0 || !IsWordChar(isAlnum, q[sp.start - 1]))
          && (sp.end == |q| || !IsWordChar(isAlnum, q[sp.end])))
    && (sp.quoted ==>
          && 1 <= sp.start
          && q[sp.start - 1] == '"'
          && (forall k :: sp.start <= k < sp.end ==> q[k] != '"')
          && (sp.end == |q| || q[sp.end] == '"'))
  }

  /** Where the next token can begin at the earliest. */
  function Low(st: State, pos: nat): nat {
    if st.Fused? then pos else st.start
  }

  lemma EmitFreeOk(q: string, isAlnum: char -> bool, s: nat, i: nat)
    requires Inv(q, isAlnum, State.Free(s), i) && s < i
    requires i == |q| || !IsWordChar(isAlnum, q[i])
    ensures SpanOk(q, isAlnum, Span(false, s, i))
  {
  }

  lemma EmitQuotedOk(q: string, isAlnum: char -> bool, s: nat, i: nat)
    requires Inv(q, isAlnum, State.Quoted(s), i)
    requires i == |q| || q[i] == '"'
    ensures SpanOk(q, isAlnum, Span(true, s, i))
  {
  }

  /** What one call of `next` from a reachable state guarantees about its step `r`. */
  ghost predicate StepOk(q: string, isAlnum: char -> bool, st: State, pos: nat, r: Step) {
    && Inv(q, isAlnum, r.state, r.pos)
    && Low(st, pos) <= Low(r.state, r.pos)
    && (r.span.Some? ==>
          && SpanOk(q, isAlnum, r.span.value)
          && Low(st, pos) <= r.span.value.start
          && (r.span.value.end < Low(r.state, r.pos) || r.state.Fused?))
    && (r.span.None? ==> r.state == Fused && r.pos == |q|)
  }

  /** One call of `next` keeps the lexer in a reachable state, emits a well-formed
      token that lies after everything emitted before, and returns `None` only
      once the lexer is fused at the end. */
  lemma {:induction false} NextStepSound(q: string, isAlnum: char -> bool, st: State, pos: nat)
    requires Inv(q, isAlnum, st, pos)
    ensures StepOk(q, isAlnum, st, pos, NextStep(q, isAlnum, st, pos))
    decreases |q| - pos, 1
  {
    if pos == |q| {
      StepAtEnd(q, isAlnum, st, pos);
    } else if q[pos] == '"' && !(st.Free? && pos <= st.start) {
      StepAtQuote(q, isAlnum, st, pos);
    } else if q[pos] != '"' && !st.IsQuoted() && !isAlnum(q[pos]) && st.Free? && pos > st.start {
      StepAtSeparator(q, isAlnum, st, pos);
    } else {
      SkipSound(q, isAlnum, st, pos);
    }
  }

  /** A character `next` passes over without emitting anything. */
  lemma {:induction false} SkipSound(q: string, isAlnum: char -> bool, st: State, pos: nat)
    requires Inv(q, isAlnum, st, pos) && pos < |q|
    requires q[pos] == '"' ==> st.Free? && pos <= st.start
    requires q[pos] != '"' && !st.IsQuoted() && !isAlnum(q[pos]) ==> !(st.Free? && pos > st.start)
    ensures StepOk(q, isAlnum, st, pos, NextStep(q, isAlnum, st, pos))
    decreases |q| - pos, 0
  {
    var next :=
      if q[pos] == '"' then State.Quoted(pos + 1)
      else if !st.IsQuoted() && !isAlnum(q[pos]) then State.Free(pos + 1)
      else st;
    assert NextStep(q, isAlnum, st, pos) == NextStep(q, isAlnum, next, pos + 1);
    assert Inv(q, isAlnum, next, pos + 1);
    NextStepSound(q, isAlnum, next, pos + 1);
  }

  lemma StepAtEnd(q: string, isAlnum: char -> bool, st: State, pos: nat)
    requires Inv(q, isAlnum, st, pos) && pos == |q|
    ensures StepOk(q, isAlnum, st, pos, NextStep(q, isAlnum, st, pos))
  {
    if st.Free? && st.start < |q| {
      EmitFreeOk(q, isAlnum, st.start, pos);
    } else if st.Quoted? {
      EmitQuotedOk(q, isAlnum, st.start, pos);
    }
  }

  lemma StepAtQuote(q: string, isAlnum: char -> bool, st: State, pos: nat)
    requires Inv(q, isAlnum, st, pos) && pos < |q| && q[pos] == '"'
    requires st.Free? ==> pos > st.start
    ensures StepOk(q, isAlnum, st, pos, NextStep(q, isAlnum, st, pos))
  {
    if st.Quoted? {
      EmitQuotedOk(q, isAlnum, st.start, pos);
      assert Inv(q, isAlnum, State.Free(pos + 1), pos + 1);
    } else if st.Free? {
      EmitFreeOk(q, isAlnum, st.start, pos);
      assert Inv(q, isAlnum, State.Quoted(pos + 1), pos + 1);
    }
  }

  lemma StepAtSeparator(q: string, isAlnum: char -> bool, st: State, pos: nat)
    requires Inv(q, isAlnum, st, pos) && pos < |q| && q[pos] != '"' && !isAlnum(q[pos])
    requires st.Free? && pos > st.start
    ensures StepOk(q, isAlnum, st, pos, NextStep(q, isAlnum, st, pos))
  {
    EmitFreeOk(q, isAlnum, st.start, pos);
    assert Inv(q, isAlnum, State.Free(pos + 1), pos + 1);
  }

  /** Once `next` has returned `None` from a reachable state, it returns `None`
      forever and nothing changes: the lexer is fused. */
  lemma FusedForever(q: string, isAlnum: char -> bool, st: State, pos: nat)
    requires Inv(q, isAlnum, st, pos)
    ensures var r := NextStep(q, isAlnum, st, pos);
      r.span.None? ==> r.state == Fused && r.pos == |q| && NextStep(q, isAlnum, r.state, r.pos) == r
  {
    NextStepSound(q, isAlnum, st, pos);
  }

  /** Every span is well formed and begins at `low` or later, and the spans come
      in strictly increasing, non-overlapping position order. */
  ghost predicate SpansOk(q: string, isAlnum: char -> bool, low: nat, sp: seq<Span>) {
    && (forall j :: 0 <= j < |sp| ==> SpanOk(q, isAlnum, sp[j]) && low <= sp[j].start)
    && (forall j :: 0 <= j < |sp| - 1 ==> sp[j].end < sp[j + 1].start)
  }

  /** Every token is well formed, and tokens come out in strictly increasing,
      non-overlapping position order. */
  lemma {:induction false} SpansOrdered(q: string, isAlnum: char -> bool, st: State, pos: nat)
    requires Inv(q, isAlnum, st, pos)
    ensures SpansOk(q, isAlnum, Low(st, pos), Spans(q, isAlnum, st, pos))
    decreases |q| - pos, if st.Fused? then 0 else 1
  {
    var r := NextStep(q, isAlnum, st, pos);
    NextStepSound(q, isAlnum, st, pos);
    if r.span.Some? {
      SpansOrdered(q, isAlnum, r.state, r.pos);
      var rest := Spans(q, isAlnum, r.state, r.pos);
      var sp := Spans(q, isAlnum, st, pos);
      assert sp == [r.span.value] + rest;
      if r.state.Fused? {
        assert NextStep(q, isAlnum, r.state, r.pos).span.None?;
        assert sp == [r.span.value];
      } else {
        assert forall j :: 1 <= j < |sp| ==> sp[j] == rest[j - 1];
        if rest != [] {
          assert sp[0].end < sp[1].start;
        }
      }
    }
  }

  // ---------------------------------------------------------------------------
  // Coverage: no character that belongs to a token is dropped

  /** The number of `"` characters in `s`. */
  function QuoteCount(s: string): nat {
    if s == [] then 0 else QuoteCount(s[..|s| - 1]) + (if s[|s| - 1] == '"' then 1 else 0)
  }

  /** Position `k` lies between an opening `"` and its closing one. */
  predicate InsideQuotes(q: string, k: nat)
    requires k <= |q|
  {
    QuoteCount(q[..k]) % 2 == 1
  }

  lemma QuoteCountNext(q: string, k: nat)
    requires k < |q|
    ensures QuoteCount(q[..k + 1]) == QuoteCount(q[..k]) + (if q[k] == '"' then 1 else 0)
  {
    assert q[..k + 1][..k] == q[..k];
  }

  lemma {:induction false} QuoteCountFlat(q: string, s: nat, k: nat)
    requires s <= k <= |q|
    requires forall j :: s <= j < k ==> q[j] != '"'
    ensures QuoteCount(q[..k]) == QuoteCount(q[..s])
    decreases k - s
  {
    if s < k {
      QuoteCountFlat(q, s, k - 1);
      QuoteCountNext(q, k - 1);
    }
  }

  /** Across a run without `"`, being inside quotes does not change. */
  lemma RunParity(q: string, s: nat, e: nat)
    requires s <= e <= |q|
    requires forall j :: s <= j < e ==> q[j] != '"'
    ensures forall k :: s <= k <= e ==> (InsideQuotes(q, k) <==> InsideQuotes(q, s))
  {
    forall k | s <= k <= e ensures InsideQuotes(q, k) <==> InsideQuotes(q, s) {
      QuoteCountFlat(q, s, k);
    }
  }

  /** A `"` flips being inside quotes; any other character keeps it. */
  lemma NextParity(q: string, k: nat)
    requires k < |q|
    ensures InsideQuotes(q, k + 1) <==> (InsideQuotes(q, k) != (q[k] == '"'))
  {
    QuoteCountNext(q, k);
  }

  /** A free token starts outside quotes, a quoted one inside them. */
  predicate ParityOk(q: string, st: State) {
    match st
    case Free(s) => s <= |q| && !InsideQuotes(q, s)
    case Quoted(s) => s <= |q| && InsideQuotes(q, s)
    case Fused => true
  }

  predicate CoversFree(sp: Span, k: nat) {
    !sp.quoted && sp.start <= k < sp.end
  }

  predicate CoversQuoted(sp: Span, k: nat) {
    sp.quoted && sp.start <= k < sp.end
  }

  /** `sp` is a quoted span that begins at `k`. */
  predicate QuotedFrom(sp: Span, k: nat) {
    sp.quoted && sp.start == k
  }

  /** Position `k` holds a `"` that opens a quoted token. */
  predicate OpensQuote(q: string, k: nat)
    requires k < |q|
  {
    q[k] == '"' && !InsideQuotes(q, k)
  }

  /** A quoted span starts inside quotes, a free one outside them. */
  predicate StartParity(q: string, sp: Span) {
    sp.start <= |q| && (sp.quoted <==> InsideQuotes(q, sp.start))
  }

  ghost predicate AllStartParity(q: string, sp: seq<Span>) {
    forall j :: 0 <= j < |sp| ==> StartParity(q, sp[j])
  }

  /** Position `k` is not dropped by `sp`: a word character outside quotes lies in
      a free span, a character other than `"` inside quotes in a quoted span, and
      an opening `"` is followed by a quoted span, empty or not. */
  ghost predicate CoveredBy(q: string, isAlnum: char -> bool, k: nat, sp: seq<Span>)
    requires k < |q|
  {
    && (IsWordChar(isAlnum, q[k]) && !InsideQuotes(q, k) ==> exists j :: 0 <= j < |sp| && CoversFree(sp[j], k))
    && (q[k] != '"' && InsideQuotes(q, k) ==> exists j :: 0 <= j < |sp| && CoversQuoted(sp[j], k))
    && (OpensQuote(q, k) ==> exists j :: 0 <= j < |sp| && QuotedFrom(sp[j], k + 1))
  }

  /** Every position from `low` on is covered by `sp`. */
  ghost predicate AllCovered(q: string, isAlnum: char -> bool, low: nat, sp: seq<Span>) {
    forall k :: low <= k < |q| ==> CoveredBy(q, isAlnum, k, sp)
  }

  /** `k` is covered by the span a step emits. */
  ghost predicate CoveredByStep(q: string, isAlnum: char -> bool, k: nat, r: Step)
    requires k < |q|
  {
    && (IsWordChar(isAlnum, q[k]) && !InsideQuotes(q, k) ==> r.span.Some? && CoversFree(r.span.value, k))
    && (q[k] != '"' && InsideQuotes(q, k) ==> r.span.Some? && CoversQuoted(r.span.value, k))
    && (OpensQuote(q, k) ==> (r.span.Some? && QuotedFrom(r.span.value, k + 1)) || r.state == State.Quoted(k + 1))
  }

  /** One step `r` covers every position it consumes, those from `Low(st, pos)` up
      to where the next token can begin, emits a span whose start has the right
      parity, and leaves a state of the right parity. */
  ghost predicate StepCovers(q: string, isAlnum: char -> bool, st: State, pos: nat, r: Step) {
    && ParityOk(q, r.state)
    && (r.span.Some? ==> StartParity(q, r.span.value))
    && forall k :: Low(st, pos) <= k < Low(r.state, r.pos) && k < |q| ==> CoveredByStep(q, isAlnum, k, r)
  }

  /** One call of `next` from a reachable state drops no character it consumes. */
  lemma {:induction false} NextStepCovers(q: string, isAlnum: char -> bool, st: State, pos: nat)
    requires Inv(q, isAlnum, st, pos) && ParityOk(q, st)
    ensures StepCovers(q, isAlnum, st, pos, NextStep(q, isAlnum, st, pos))
    decreases |q| - pos, 1
  {
    if pos == |q| {
      CoverAtEnd(q, isAlnum, st, pos);
    } else if q[pos] == '"' && !(st.Free? && pos <= st.start) {
      CoverAtQuote(q, isAlnum, st, pos);
    } else if q[pos] != '"' && !st.IsQuoted() && !isAlnum(q[pos]) && st.Free? && pos > st.start {
      CoverAtSeparator(q, isAlnum, st, pos);
    } else {
      SkipCovers(q, isAlnum, st, pos);
    }
  }

  lemma {:induction false} SkipCovers(q: string, isAlnum: char -> bool, st: State, pos: nat)
    requires Inv(q, isAlnum, st, pos) && ParityOk(q, st) && pos < |q|
    requires q[pos] == '"' ==> st.Free? && pos <= st.start
    requires q[pos] != '"' && !st.IsQuoted() && !isAlnum(q[pos]) ==> !(st.Free? && pos > st.start)
    ensures StepCovers(q, isAlnum, st, pos, NextStep(q, isAlnum, st, pos))
    decreases |q| - pos, 0
  {
    var next :=
      if q[pos] == '"' then State.Quoted(pos + 1)
      else if !st.IsQuoted() && !isAlnum(q[pos]) then State.Free(pos + 1)
      else st;
    var r := NextStep(q, isAlnum, next, pos + 1);
    assert NextStep(q, isAlnum, st, pos) == r;
    assert Inv(q, isAlnum, next, pos + 1);
    NextParity(q, pos);
    assert ParityOk(q, next);
    NextStepCovers(q, isAlnum, next, pos + 1);
    if q[pos] == '"' {
      QuotedEmits(q, isAlnum, pos + 1, pos + 1);
    }
    if next != st {
      assert Low(st, pos) == pos && Low(next, pos + 1) == pos + 1;
      assert !IsWordChar(isAlnum, q[pos]) && (q[pos] != '"' ==> !InsideQuotes(q, pos));
      assert CoveredByStep(q, isAlnum, pos, r);
    }
  }

  lemma CoverAtEnd(q: string, isAlnum: char -> bool, st: State, pos: nat)
    requires Inv(q, isAlnum, st, pos) && ParityOk(q, st) && pos == |q|
    ensures StepCovers(q, isAlnum, st, pos, NextStep(q, isAlnum, st, pos))
  {
    var r := NextStep(q, isAlnum, st, pos);
    if st.Free? {
      RunParity(q, st.start, pos);
      forall k | st.start <= k < |q| ensures CoveredByStep(q, isAlnum, k, r) {
        assert IsWordChar(isAlnum, q[k]) && !InsideQuotes(q, k);
      }
    } else if st.Quoted? {
      RunParity(q, st.start, pos);
      forall k | st.start <= k < |q| ensures CoveredByStep(q, isAlnum, k, r) {
        assert q[k] != '"' && InsideQuotes(q, k);
      }
    }
  }

  lemma CoverAtQuote(q: string, isAlnum: char -> bool, st: State, pos: nat)
    requires Inv(q, isAlnum, st, pos) && ParityOk(q, st) && pos < |q| && q[pos] == '"'
    requires st.Free? ==> pos > st.start
    ensures StepCovers(q, isAlnum, st, pos, NextStep(q, isAlnum, st, pos))
  {
    var r := NextStep(q, isAlnum, st, pos);
    NextParity(q, pos);
    if st.Quoted? {
      var s := st.start;
      assert r == Step(Some(Span(true, s, pos)), State.Free(pos + 1), pos + 1);
      RunParity(q, s, pos);
      forall k | s <= k < pos + 1 ensures CoveredByStep(q, isAlnum, k, r) {
        if k < pos {
          assert InsideQuotes(q, k);
        }
      }
    } else if st.Free? {
      var s := st.start;
      assert r == Step(Some(Span(false, s, pos)), State.Quoted(pos + 1), pos + 1);
      RunParity(q, s, pos);
      forall k | s <= k < pos + 1 ensures CoveredByStep(q, isAlnum, k, r) {
        if k < pos {
          assert IsWordChar(isAlnum, q[k]) && !InsideQuotes(q, k);
        }
      }
    }
  }

  lemma CoverAtSeparator(q: string, isAlnum: char -> bool, st: State, pos: nat)
    requires Inv(q, isAlnum, st, pos) && ParityOk(q, st) && pos < |q| && q[pos] != '"' && !isAlnum(q[pos])
    requires st.Free? && pos > st.start
    ensures StepCovers(q, isAlnum, st, pos, NextStep(q, isAlnum, st, pos))
  {
    var s := st.start;
    var r := NextStep(q, isAlnum, st, pos);
    assert r == Step(Some(Span(false, s, pos)), State.Free(pos + 1), pos + 1);
    NextParity(q, pos);
    RunParity(q, s, pos);
    forall k | s <= k < pos + 1 ensures CoveredByStep(q, isAlnum, k, r) {
      assert !InsideQuotes(q, k);
      if k < pos {
        assert IsWordChar(isAlnum, q[k]);
      }
    }
  }

  /** From inside quotes, the next call of `next` emits the quoted token begun at `s`. */
  lemma {:induction false} QuotedEmits(q: string, isAlnum: char -> bool, s: nat, pos: nat)
    requires s <= pos <= |q|
    ensures var r := NextStep(q, isAlnum, State.Quoted(s), pos);
      && r.span.Some? && QuotedFrom(r.span.value, s)
      && pos <= r.span.value.end <= |q|
      && (r.span.value.end == |q| || q[r.span.value.end] == '"')
      && (forall k :: pos <= k < r.span.value.end ==> q[k] != '"')
    decreases |q| - pos
  {
    if pos < |q| && q[pos] != '"' {
      QuotedEmits(q, isAlnum, s, pos + 1);
    }
  }

  lemma CoveredHead(q: string, isAlnum: char -> bool, k: nat, r: Step, rest: seq<Span>)
    requires k < |q| && r.span.Some? && CoveredByStep(q, isAlnum, k, r)
    requires r.state.Quoted? ==> |rest| > 0 && QuotedFrom(rest[0], r.state.start)
    ensures CoveredBy(q, isAlnum, k, [r.span.value] + rest)
  {
    var sp := [r.span.value] + rest;
    assert sp[0] == r.span.value;
    if OpensQuote(q, k) && r.state == State.Quoted(k + 1) {
      assert sp[1] == rest[0];
    }
  }

  lemma CoveredTail(q: string, isAlnum: char -> bool, k: nat, h: Span, rest: seq<Span>)
    requires k < |q| && CoveredBy(q, isAlnum, k, rest)
    ensures CoveredBy(q, isAlnum, k, [h] + rest)
  {
    var sp := [h] + rest;
    if IsWordChar(isAlnum, q[k]) && !InsideQuotes(q, k) {
      var j :| 0 <= j < |rest| && CoversFree(rest[j], k);
      assert sp[j + 1] == rest[j];
    }
    if q[k] != '"' && InsideQuotes(q, k) {
      var j :| 0 <= j < |rest| && CoversQuoted(rest[j], k);
      assert sp[j + 1] == rest[j];
    }
    if OpensQuote(q, k) {
      var j :| 0 <= j < |rest| && QuotedFrom(rest[j], k + 1);
      assert sp[j + 1] == rest[j];
    }
  }

  /** From a reachable state, the tokens still to come cover every word character
      outside quotes and every non-quote character inside quotes, follow every
      opening `"`, and start inside quotes exactly when they are quoted. */
  lemma {:induction false} SpansCover(q: string, isAlnum: char -> bool, st: State, pos: nat)
    requires Inv(q, isAlnum, st, pos) && ParityOk(q, st)
    ensures AllCovered(q, isAlnum, Low(st, pos), Spans(q, isAlnum, st, pos))
    ensures AllStartParity(q, Spans(q, isAlnum, st, pos))
    decreases |q| - pos, if st.Fused? then 0 else 1
  {
    var r := NextStep(q, isAlnum, st, pos);
    NextStepSound(q, isAlnum, st, pos);
    NextStepCovers(q, isAlnum, st, pos);
    var sp := Spans(q, isAlnum, st, pos);
    if r.span.Some? {
      SpansCover(q, isAlnum, r.state, r.pos);
      var rest := Spans(q, isAlnum, r.state, r.pos);
      assert sp == [r.span.value] + rest;
      assert forall j :: 1 <= j < |sp| ==> sp[j] == rest[j - 1];
      if r.state.Quoted? {
        QuotedEmits(q, isAlnum, r.state.start, r.pos);
        SpansStep(q, isAlnum, r.state, r.pos);
      }
      forall k | Low(st, pos) <= k < |q| ensures CoveredBy(q, isAlnum, k, sp) {
        if k < Low(r.state, r.pos) {
          CoveredHead(q, isAlnum, k, r, rest);
        } else {
          CoveredTail(q, isAlnum, k, r.span.value, rest);
        }
      }
    } else {
      assert sp == [];
      forall k | Low(st, pos) <= k < |q| ensures CoveredBy(q, isAlnum, k, sp) {
        assert CoveredByStep(q, isAlnum, k, r);
      }
    }
  }

  /** One call of `next` leads from a reachable state of the right parity to another. */
  lemma StepKeepsReachable(q: string, isAlnum: char -> bool, st: State, pos: nat)
    requires Inv(q, isAlnum, st, pos) && ParityOk(q, st)
    ensures var r := NextStep(q, isAlnum, st, pos); Inv(q, isAlnum, r.state, r.pos) && ParityOk(q, r.state)
  {
    NextStepSound(q, isAlnum, st, pos);
    NextStepCovers(q, isAlnum, st, pos);
  }

  /** The tokens of a whole query drop nothing and follow the quotes: every word
      character outside quotes lies in a free token, every character other than
      `"` after an odd number of `"` lies in a quoted token, every opening `"` is
      followed by a quoted token (empty or not), and a token is quoted exactly
      when it starts after an odd number of `"`. */
  lemma TokensCoverQuery(q: string, isAlnum: char -> bool)
    ensures AllCovered(q, isAlnum, 0, Spans(q, isAlnum, State.Free(0), 0))
    ensures AllStartParity(q, Spans(q, isAlnum, State.Free(0), 0))
  {
    assert q[..0] == [];
    SpansCover(q, isAlnum, State.Free(0), 0);
  }

  /** Inside quotes every character but `"` is passed over, spaces included. */
  lemma {:induction false} QuotedRun(q: string, isAlnum: char -> bool, s: nat, i: nat, j: nat)
    requires s <= i <= j <= |q|
    requires forall k :: i <= k < j ==> q[k] != '"'
    ensures NextStep(q, isAlnum, State.Quoted(s), i) == NextStep(q, isAlnum, State.Quoted(s), j)
    decreases j - i
  {
    if i < j {
      QuotedRun(q, isAlnum, s, i + 1, j);
    }
  }

  /** In free text every word character is passed over. */
  lemma {:induction false} FreeRun(q: string, isAlnum: char -> bool, s: nat, i: nat, j: nat)
    requires s <= i <= j <= |q|
    requires forall k :: i <= k < j ==> IsWordChar(isAlnum, q[k])
    ensures NextStep(q, isAlnum, State.Free(s), i) == NextStep(q, isAlnum, State.Free(s), j)
    decreases j - i
  {
    if i < j {
      FreeRun(q, isAlnum, s, i + 1, j);
    }
  }

  /** Separators that do not end a non-empty free token emit nothing. */
  lemma {:induction false} SeparatorRun(q: string, isAlnum: char -> bool, i: nat, j: nat)
    requires i <= j <= |q|
    requires forall k :: i <= k < j ==> q[k] != '"' && !isAlnum(q[k])
    ensures NextStep(q, isAlnum, State.Free(i), i) == NextStep(q, isAlnum, State.Free(j), j)
    decreases j - i
  {
    if i < j {
      SeparatorRun(q, isAlnum, i + 1, j);
    }
  }

  // ---------------------------------------------------------------------------
  // The unit-test scenarios of the lexer

  /** What the test queries need of the alphanumeric class: lower-case ASCII
      letters are in it, the space is not. */
  ghost predicate LettersNotSpace(isAlnum: char -> bool) {
    && (forall c :: 'a' <= c <= 'z' ==> isAlnum(c))
    && !isAlnum(' ')
  }

  /** One unfolding of `Spans`, for the scenarios below. */
  lemma SpansStep(q: string, isAlnum: char -> bool, st: State, pos: nat)
    requires pos <= |q| && StartOk(st, pos)
    ensures var r := NextStep(q, isAlnum, st, pos);
      Spans(q, isAlnum, st, pos) == if r.span.None? then [] else [r.span.value] + Spans(q, isAlnum, r.state, r.pos)
  {
  }

  lemma OneQuotedString(q: string, isAlnum: char -> bool)
    requires q == "\"hello\""
    requires LettersNotSpace(isAlnum)
    ensures Tokenize(q, isAlnum) == [QueryToken.Quoted("hello")]
  {
    assert Spans(q, isAlnum, State.Free(0), 0) == [Span(true, 1, 6)] by {
      assert NextStep(q, isAlnum, State.Free(0), 0) == Step(Some(Span(true, 1, 6)), State.Free(7), 7) by {
        assert NextStep(q, isAlnum, State.Free(0), 0) == NextStep(q, isAlnum, State.Quoted(1), 1);
        QuotedRun(q, isAlnum, 1, 1, 6);
        assert NextStep(q, isAlnum, State.Quoted(1), 6) == Step(Some(Span(true, 1, 6)), State.Free(7), 7);
      }
      assert NextStep(q, isAlnum, State.Free(7), 7) == Step(None, Fused, 7);
      SpansStep(q, isAlnum, State.Free(7), 7);
      SpansStep(q, isAlnum, State.Free(0), 0);
    }
    assert q[1..6] == "hello";
  }

  lemma OnePendingQuotedString(q: string, isAlnum: char -> bool)
    requires q == "\"hello"
    requires LettersNotSpace(isAlnum)
    ensures Tokenize(q, isAlnum) == [QueryToken.Quoted("hello")]
  {
    assert Spans(q, isAlnum, State.Free(0), 0) == [Span(true, 1, 6)] by {
      assert NextStep(q, isAlnum, State.Free(0), 0) == Step(Some(Span(true, 1, 6)), Fused, 6) by {
        assert NextStep(q, isAlnum, State.Free(0), 0) == NextStep(q, isAlnum, State.Quoted(1), 1);
        QuotedRun(q, isAlnum, 1, 1, 6);
        assert NextStep(q, isAlnum, State.Quoted(1), 6) == Step(Some(Span(true, 1, 6)), Fused, 6);
      }
      assert NextStep(q, isAlnum, Fused, 6) == Step(None, Fused, 6);
      SpansStep(q, isAlnum, Fused, 6);
      SpansStep(q, isAlnum, State.Free(0), 0);
    }
    assert q[1..6] == "hello";
  }

  lemma OneNonQuotedString(q: string, isAlnum: char -> bool)
    requires q == "hello"
    requires LettersNotSpace(isAlnum)
    ensures Tokenize(q, isAlnum) == [QueryToken.Free("hello")]
  {
    assert Spans(q, isAlnum, State.Free(0), 0) == [Span(false, 0, 5)] by {
      assert NextStep(q, isAlnum, State.Free(0), 0) == Step(Some(Span(false, 0, 5)), Fused, 5) by {
        FreeRun(q, isAlnum, 0, 0, 5);
        assert NextStep(q, isAlnum, State.Free(0), 5) == Step(Some(Span(false, 0, 5)), Fused, 5);
      }
      assert NextStep(q, isAlnum, Fused, 5) == Step(None, Fused, 5);
      SpansStep(q, isAlnum, Fused, 5);
      SpansStep(q, isAlnum, State.Free(0), 0);
    }
    assert q[0..5] == "hello";
  }

  lemma QuotedDirectlyFollowedByFreeStrings(q: string, isAlnum: char -> bool)
    requires q == "\"hello\"world"
    requires LettersNotSpace(isAlnum)
    ensures Tokenize(q, isAlnum) == [QueryToken.Quoted("hello"), QueryToken.Free("world")]
  {
    assert Spans(q, isAlnum, State.Free(0), 0) == [Span(true, 1, 6), Span(false, 7, 12)] by {
      assert NextStep(q, isAlnum, State.Free(0), 0) == Step(Some(Span(true, 1, 6)), State.Free(7), 7) by {
        assert NextStep(q, isAlnum, State.Free(0), 0) == NextStep(q, isAlnum, State.Quoted(1), 1);
        QuotedRun(q, isAlnum, 1, 1, 6);
        assert NextStep(q, isAlnum, State.Quoted(1), 6) == Step(Some(Span(true, 1, 6)), State.Free(7), 7);
      }
      assert NextStep(q, isAlnum, State.Free(7), 7) == Step(Some(Span(false, 7, 12)), Fused, 12) by {
        FreeRun(q, isAlnum, 7, 7, 12);
        assert NextStep(q, isAlnum, State.Free(7), 12) == Step(Some(Span(false, 7, 12)), Fused, 12);
      }
      assert NextStep(q, isAlnum, Fused, 12) == Step(None, Fused, 12);
      SpansStep(q, isAlnum, Fused, 12);
      SpansStep(q, isAlnum, State.Free(7), 7);
      SpansStep(q, isAlnum, State.Free(0), 0);
    }
    assert q[1..6] == "hello";
    assert q[7..12] == "world";
  }

  lemma FreeDirectlyFollowedByQuotedStrings(q: string, isAlnum: char -> bool)
    requires q == "hello\"world\""
    requires LettersNotSpace(isAlnum)
    ensures Tokenize(q, isAlnum) == [QueryToken.Free("hello"), QueryToken.Quoted("world")]
  {
    assert Spans(q, isAlnum, State.Free(0), 0) == [Span(false, 0, 5), Span(true, 6, 11)] by {
      assert NextStep(q, isAlnum, State.Free(0), 0) == Step(Some(Span(false, 0, 5)), State.Quoted(6), 6) by {
        FreeRun(q, isAlnum, 0, 0, 5);
        assert NextStep(q, isAlnum, State.Free(0), 5) == Step(Some(Span(false, 0, 5)), State.Quoted(6), 6);
      }
      assert NextStep(q, isAlnum, State.Quoted(6), 6) == Step(Some(Span(true, 6, 11)), State.Free(12), 12) by {
        QuotedRun(q, isAlnum, 6, 6, 11);
        assert NextStep(q, isAlnum, State.Quoted(6), 11) == Step(Some(Span(true, 6, 11)), State.Free(12), 12);
      }
      assert NextStep(q, isAlnum, State.Free(12), 12) == Step(None, Fused, 12);
      SpansStep(q, isAlnum, State.Free(12), 12);
      SpansStep(q, isAlnum, State.Quoted(6), 6);
      SpansStep(q, isAlnum, State.Free(0), 0);
    }
    assert q[0..5] == "hello";
    assert q[6..11] == "world";
  }

  lemma FreeFollowedByQuotedStrings(q: string, isAlnum: char -> bool)
    requires q == "hello \"world\""
    requires LettersNotSpace(isAlnum)
    ensures Tokenize(q, isAlnum) == [QueryToken.Free("hello"), QueryToken.Quoted("world")]
  {
    assert Spans(q, isAlnum, State.Free(0), 0) == [Span(false, 0, 5), Span(true, 7, 12)] by {
      assert NextStep(q, isAlnum, State.Free(0), 0) == Step(Some(Span(false, 0, 5)), State.Free(6), 6) by {
        FreeRun(q, isAlnum, 0, 0, 5);
        assert NextStep(q, isAlnum, State.Free(0), 5) == Step(Some(Span(false, 0, 5)), State.Free(6), 6);
      }
      assert NextStep(q, isAlnum, State.Free(6), 6) == Step(Some(Span(true, 7, 12)), State.Free(13), 13) by {
        assert NextStep(q, isAlnum, State.Free(6), 6) == NextStep(q, isAlnum, State.Quoted(7), 7);
        QuotedRun(q, isAlnum, 7, 7, 12);
        assert NextStep(q, isAlnum, State.Quoted(7), 12) == Step(Some(Span(true, 7, 12)), State.Free(13), 13);
      }
      assert NextStep(q, isAlnum, State.Free(13), 13) == Step(None, Fused, 13);
      SpansStep(q, isAlnum, State.Free(13), 13);
      SpansStep(q, isAlnum, State.Free(6), 6);
      SpansStep(q, isAlnum, State.Free(0), 0);
    }
    assert q[0..5] == "hello";
    assert q[7..12] == "world";
  }

  lemma MultipleSpacesSeparatedStringsStep1(q: string, isAlnum: char -> bool)
    requires q == "hello    world   "
    requires LettersNotSpace(isAlnum)
    ensures NextStep(q, isAlnum, State.Free(0), 0) == Step(Some(Span(false, 0, 5)), State.Free(6), 6)
  {
    FreeRun(q, isAlnum, 0, 0, 5);
    assert NextStep(q, isAlnum, State.Free(0), 5) == Step(Some(Span(false, 0, 5)), State.Free(6), 6);
  }

  lemma MultipleSpacesSeparatedStringsStep2(q: string, isAlnum: char -> bool)
    requires q == "hello    world   "
    requires LettersNotSpace(isAlnum)
    ensures NextStep(q, isAlnum, State.Free(6), 6) == Step(Some(Span(false, 9, 14)), State.Free(15), 15)
  {
    SeparatorRun(q, isAlnum, 6, 9);
    FreeRun(q, isAlnum, 9, 9, 14);
    assert NextStep(q, isAlnum, State.Free(9), 14) == Step(Some(Span(false, 9, 14)), State.Free(15), 15);
  }

  lemma MultipleSpacesSeparatedStringsStep3(q: string, isAlnum: char -> bool)
    requires q == "hello    world   "
    requires LettersNotSpace(isAlnum)
    ensures NextStep(q, isAlnum, State.Free(15), 15) == Step(None, Fused, 17)
  {
    SeparatorRun(q, isAlnum, 15, 17);
    assert NextStep(q, isAlnum, State.Free(17), 17) == Step(None, Fused, 17);
  }

  lemma MultipleSpacesSeparatedStrings(q: string, isAlnum: char -> bool)
    requires q == "hello    world   "
    requires LettersNotSpace(isAlnum)
    ensures Tokenize(q, isAlnum) == [QueryToken.Free("hello"), QueryToken.Free("world")]
  {
    assert Spans(q, isAlnum, State.Free(0), 0) == [Span(false, 0, 5), Span(false, 9, 14)] by {
      MultipleSpacesSeparatedStringsStep1(q, isAlnum);
      MultipleSpacesSeparatedStringsStep2(q, isAlnum);
      MultipleSpacesSeparatedStringsStep3(q, isAlnum);
      SpansStep(q, isAlnum, State.Free(15), 15);
      SpansStep(q, isAlnum, State.Free(6), 6);
      SpansStep(q, isAlnum, State.Free(0), 0);
    }
    assert q[0..5] == "hello";
    assert q[9..14] == "world";
  }

  lemma MultiInterleavedQuotedFreeStringsSteps1And2(q: string, isAlnum: char -> bool)
    requires q == "hello \"world\" coucou \"monde\""
    requires LettersNotSpace(isAlnum)
    ensures NextStep(q, isAlnum, State.Free(0), 0) == Step(Some(Span(false, 0, 5)), State.Free(6), 6)
    ensures NextStep(q, isAlnum, State.Free(6), 6) == Step(Some(Span(true, 7, 12)), State.Free(13), 13)
  {
    FreeRun(q, isAlnum, 0, 0, 5);
    assert NextStep(q, isAlnum, State.Free(0), 5) == Step(Some(Span(false, 0, 5)), State.Free(6), 6);
    assert NextStep(q, isAlnum, State.Free(6), 6) == NextStep(q, isAlnum, State.Quoted(7), 7);
    QuotedRun(q, isAlnum, 7, 7, 12);
    assert NextStep(q, isAlnum, State.Quoted(7), 12) == Step(Some(Span(true, 7, 12)), State.Free(13), 13);
  }

  lemma MultiInterleavedQuotedFreeStringsStep3(q: string, isAlnum: char -> bool)
    requires q == "hello \"world\" coucou \"monde\""
    requires LettersNotSpace(isAlnum)
    ensures NextStep(q, isAlnum, State.Free(13), 13) == Step(Some(Span(false, 14, 20)), State.Free(21), 21)
  {
    SeparatorRun(q, isAlnum, 13, 14);
    FreeRun(q, isAlnum, 14, 14, 20);
    assert NextStep(q, isAlnum, State.Free(14), 20) == Step(Some(Span(false, 14, 20)), State.Free(21), 21);
  }

  lemma MultiInterleavedQuotedFreeStringsStep4(q: string, isAlnum: char -> bool)
    requires q == "hello \"world\" coucou \"monde\""
    requires LettersNotSpace(isAlnum)
    ensures NextStep(q, isAlnum, State.Free(21), 21) == Step(Some(Span(true, 22, 27)), State.Free(28), 28)
  {
    assert NextStep(q, isAlnum, State.Free(21), 21) == NextStep(q, isAlnum, State.Quoted(22), 22);
    QuotedRun(q, isAlnum, 22, 22, 27);
    assert NextStep(q, isAlnum, State.Quoted(22), 27) == Step(Some(Span(true, 22, 27)), State.Free(28), 28);
  }

  lemma MultiInterleavedQuotedFreeStrings(q: string, isAlnum: char -> bool)
    requires q == "hello \"world\" coucou \"monde\""
    requires LettersNotSpace(isAlnum)
    ensures Tokenize(q, isAlnum) == [QueryToken.Free("hello"), QueryToken.Quoted("world"), QueryToken.Free("coucou"), QueryToken.Quoted("monde")]
  {
    assert Spans(q, isAlnum, State.Free(0), 0) == [Span(false, 0, 5), Span(true, 7, 12), Span(false, 14, 20), Span(true, 22, 27)] by {
      MultiInterleavedQuotedFreeStringsSteps1And2(q, isAlnum);
      MultiInterleavedQuotedFreeStringsStep3(q, isAlnum);
      MultiInterleavedQuotedFreeStringsStep4(q, isAlnum);
      assert NextStep(q, isAlnum, State.Free(28), 28) == Step(None, Fused, 28);
      SpansStep(q, isAlnum, State.Free(28), 28);
      SpansStep(q, isAlnum, State.Free(21), 21);
      SpansStep(q, isAlnum, State.Free(13), 13);
      SpansStep(q, isAlnum, State.Free(6), 6);
      SpansStep(q, isAlnum, State.Free(0), 0);
    }
    assert q[0..5] == "hello";
    assert q[7..12] == "world";
    assert q[14..20] == "coucou";
    assert q[22..27] == "monde";
  }

  /** Two adjacent quotes give an empty quoted token between the free ones. */
  lemma EmptyQuotedToken(q: string, isAlnum: char -> bool)
    requires q == "a\"\"b"
    requires LettersNotSpace(isAlnum)
    ensures Tokenize(q, isAlnum) == [QueryToken.Free("a"), QueryToken.Quoted(""), QueryToken.Free("b")]
  {
    assert Spans(q, isAlnum, State.Free(0), 0) == [Span(false, 0, 1), Span(true, 2, 2), Span(false, 3, 4)] by {
      assert NextStep(q, isAlnum, State.Free(0), 0) == Step(Some(Span(false, 0, 1)), State.Quoted(2), 2) by {
        assert NextStep(q, isAlnum, State.Free(0), 0) == NextStep(q, isAlnum, State.Free(0), 1);
      }
      assert NextStep(q, isAlnum, State.Quoted(2), 2) == Step(Some(Span(true, 2, 2)), State.Free(3), 3);
      assert NextStep(q, isAlnum, State.Free(3), 3) == Step(Some(Span(false, 3, 4)), Fused, 4) by {
        assert NextStep(q, isAlnum, State.Free(3), 3) == NextStep(q, isAlnum, State.Free(3), 4);
      }
      assert NextStep(q, isAlnum, Fused, 4) == Step(None, Fused, 4);
      SpansStep(q, isAlnum, Fused, 4);
      SpansStep(q, isAlnum, State.Free(3), 3);
      SpansStep(q, isAlnum, State.Quoted(2), 2);
      SpansStep(q, isAlnum, State.Free(0), 0);
    }
    assert q[0..1] == "a";
    assert q[2..2] == "";
    assert q[3..4] == "b";
  }

  /** A query ending in an opening `"` gives an empty quoted token last. */
  lemma TrailingQuoteToken(q: string, isAlnum: char -> bool)
    requires q == "ab\""
    requires LettersNotSpace(isAlnum)
    ensures Tokenize(q, isAlnum) == [QueryToken.Free("ab"), QueryToken.Quoted("")]
  {
    assert Spans(q, isAlnum, State.Free(0), 0) == [Span(false, 0, 2), Span(true, 3, 3)] by {
      assert NextStep(q, isAlnum, State.Free(0), 0) == Step(Some(Span(false, 0, 2)), State.Quoted(3), 3) by {
        FreeRun(q, isAlnum, 0, 0, 2);
      }
      assert NextStep(q, isAlnum, State.Quoted(3), 3) == Step(Some(Span(true, 3, 3)), Fused, 3);
      assert NextStep(q, isAlnum, Fused, 3) == Step(None, Fused, 3);
      SpansStep(q, isAlnum, Fused, 3);
      SpansStep(q, isAlnum, State.Quoted(3), 3);
      SpansStep(q, isAlnum, State.Free(0), 0);
    }
    assert q[0..2] == "ab";
    assert q[3..3] == "";
  }

  // ---------------------------------------------------------------------------
  // The lexer object

  /** A lexer over one query: `pos` counts the characters consumed so far. */
  class QueryTokens {
    var state: State
    var pos: nat
    const query: string
    const isAlphanumeric: char -> bool

    /** What `Next` needs to run. It is weaker than `Reachable`: the fields are
        public here, so a client may set a state a fresh lexer never reaches, and
        `Next` still does what the Rust iterator `QueryTokens::next` does from there. */
    ghost predicate Valid()
      reads this
    {
      pos <= |query| && StartOk(state, pos)
    }

    /** The states a fresh lexer reaches by calls of `Next`, on which the
        soundness and coverage lemmas hold. */
    ghost predicate Reachable()
      reads this
    {
      Inv(query, isAlphanumeric, state, pos) && ParityOk(query, state)
    }

    constructor (query: string, isAlphanumeric: char -> bool)
      ensures Valid() && Reachable()
      ensures this.query == query && this.isAlphanumeric == isAlphanumeric
      ensures state == State.Free(0) && pos == 0
    {
      this.state := State.Free(0);
      this.pos := 0;
      this.query := query;
      this.isAlphanumeric := isAlphanumeric;
    }

    /** The Rust iterator `QueryTokens::next`: each `break` below is a `return`
        from inside its `loop`, and the ghost step after the loop carries
        reachability over. */
    method Next() returns (token: Option<QueryToken>)
      requires Valid()
      modifies this
      ensures Valid()
      ensures var r := NextStep(query, isAlphanumeric, old(state), old(pos));
        && state == r.state && pos == r.pos
        && token == (if r.span.Some? then Some(TokenOf(query, r.span.value)) else None)
      ensures old(Reachable()) ==> Reachable()
    {
      ghost var goal := NextStep(query, isAlphanumeric, state, pos);
      while true
        invariant pos <= |query| && StartOk(state, pos)
        invariant NextStep(query, isAlphanumeric, state, pos) == goal
        decreases |query| - pos
      {
        if pos == |query| {
          var prev := state;
          state := Fused;
          match prev {
            case Free(s) =>
              assert query[s..] == query[s..|query|];
              token := if query[s..] != [] then Some(QueryToken.Free(query[s..])) else None;
            case Quoted(s) =>
              assert query[s..] == query[s..|query|];
              token := Some(QueryToken.Quoted(query[s..]));
            case Fused =>
              token := None;
          }
          break;
        }
        var i, c := pos, query[pos];
        var afteri := i + 1;
        pos := afteri;
        if c == '"' {
          var prev := state;
          state := State.Free(afteri);
          match prev {
            case Quoted(s) =>
              assert goal == Step(Some(Span(true, s, i)), State.Free(afteri), afteri);
              token := Some(QueryToken.Quoted(query[s..i]));
              break;
            case Free(s) =>
              state := State.Quoted(afteri);
              if i > s {
                assert goal == Step(Some(Span(false, s, i)), State.Quoted(afteri), afteri);
                token := Some(QueryToken.Free(query[s..i]));
                break;
              }
            case Fused =>
              assert goal == Step(None, State.Free(afteri), afteri);
              token := None;
              break;
          }
        } else if !state.IsQuoted() && !isAlphanumeric(c) {
          var prev := state;
          state := State.Free(afteri);
          if prev.Free? && i > prev.start {
            assert goal == Step(Some(Span(false, prev.start, i)), State.Free(afteri), afteri);
            token := Some(QueryToken.Free(query[prev.start..i]));
            break;
          }
          // the `_ =>` arm assigns the state again, as the Rust iterator does
          state := State.Free(afteri);
        }
      }
      if old(Reachable()) {
        StepKeepsReachable(query, isAlphanumeric, old(state), old(pos));
      }
    }
  }
}
