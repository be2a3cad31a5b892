/** The migrator as the tool runs it: one loop over the source, growing the result. */
module Migrator {
  import opened Common
  import opened MigratorLexer

  /** The outcome of a scan that has written `result` and reached offset `index`, when
      the rest of the source cuts into `rest`. */
  function Finish(rest: Result<seq<Lexeme>, Failure>, index: nat, result: string, ctx: Context)
    : Result<string, Failure>
  {
    match rest
    case Ok(ls) => Ok(result + Render(ls, ctx))
    case Err(f) => Err(f.(offset := f.offset + index))
  }

  lemma FinishPrepend(l: Lexeme, rest: Result<seq<Lexeme>, Failure>, index: nat, result: string, ctx: Context)
    ensures Finish(Prepend(l, rest), index, result, ctx)
         == Finish(rest, index + |l.text|, result + Emit(l, ctx), After(l, ctx))
  {
    if rest.Ok? {
      RenderCons(l, rest.value, ctx);
      ConcatAssociative(result, Emit(l, ctx), Render(rest.value, After(l, ctx)));
    }
  }

  lemma FinishFailed(rest: Result<seq<Lexeme>, Failure>, p: Problem, index: nat, result: string, ctx: Context,
                     goal: Result<string, Failure>)
    requires rest == Err(Failure(p, 0)) && Finish(rest, index, result, ctx) == goal
    ensures goal == Err(Failure(p, index))
  {
  }

  lemma FinishFromStart(source: string)
    ensures Finish(Split(source[0..]), 0, "", START) == Migrate(source)
  {
    assert source[0..] == source;
    if Split(source).Ok? {
      var out := Render(Split(source).value, START);
      assert "" + out == out;
    }
  }

  lemma FinishAtEnd(source: string, result: string, ctx: Context)
    ensures Finish(Split(source[|source|..]), |source|, result, ctx) == Ok(result)
  {
    assert source[|source|..] == "";
    assert result + Render([], ctx) == result;
  }

  lemma SplitAt(source: string, index: nat, l: Lexeme)
    requires index < |source| && Lex(source[index..]) == Ok(l)
    ensures index < index + |l.text| <= |source|
    ensures Split(source[index..]) == Prepend(l, Split(source[index + |l.text|..]))
  {
    assert source[index..][|l.text|..] == source[index + |l.text|..];
  }

  lemma FailAt(source: string, index: nat, p: Problem)
    requires index < |source| && Lex(source[index..]) == Err(p)
    ensures Split(source[index..]) == Err(Failure(p, 0))
  {
  }

  /** The index just after the next block comment end. */
  method FindBlockEnd(source: string, index: nat) returns (e: Option<nat>)
    requires index + 2 <= |source|
    ensures e == match BlockEnd(source[index..], 2) case Some(k) => Some(index + k) case None => None
  {
    var end := index + 2;
    ghost var rest := source[index..];
    while end + 2 <= |source|
      invariant index + 2 <= end
      invariant BlockEnd(rest, 2) == BlockEnd(rest, end - index)
    {
      if source[end] == '*' && source[end + 1] == '/' {
        return Some(end + 2);
      }
      end := end + 1;
    }
    return None;
  }

  method FindQuotedEnd(source: string, index: nat) returns (e: Option<nat>)
    requires index < |source|
    ensures e == match QuotedEnd(source[index..], 1, source[index]) case Some(k) => Some(index + k) case None => None
  {
    var quote := source[index];
    var end := index + 1;
    ghost var rest := source[index..];
    while end < |source|
      invariant index + 1 <= end
      invariant QuotedEnd(rest, 1, quote) == QuotedEnd(rest, end - index, quote)
    {
      var value := source[end];
      if IsNewline(value) {
        return None;
      }
      if value == '\\' {
        if end + 1 >= |source| || IsNewline(source[end + 1]) {
          return None;
        }
        end := end + 2;
      } else {
        end := end + 1;
        if value == quote {
          return Some(end);
        }
      }
    }
    return None;
  }

  method FindLineEnd(source: string, index: nat) returns (end: nat)
    requires index + 2 <= |source|
    ensures index + 2 <= end <= |source| && end == index + LineEnd(source[index..], 2)
  {
    end := index + 2;
    ghost var rest := source[index..];
    while end < |source| && !IsNewline(source[end])
      invariant index + 2 <= end <= |source|
      invariant LineEnd(rest, 2) == LineEnd(rest, end - index)
    {
      end := end + 1;
    }
  }

  method FindWordEnd(source: string, index: nat) returns (end: nat)
    requires index < |source|
    ensures index < end <= |source| && end == index + WordEnd(source[index..], 1)
  {
    end := index + 1;
    ghost var rest := source[index..];
    while end < |source| && IsIdentifierContinue(source[end])
      invariant index + 1 <= end <= |source|
      invariant WordEnd(rest, 1) == WordEnd(rest, end - index)
    {
      end := end + 1;
    }
  }

  /** The lexeme at `index`, cut with the loops of the tool. */
  method Next(source: string, index: nat) returns (r: Result<Lexeme, Problem>)
    requires index < |source|
    ensures r == Lex(source[index..])
  {
    var rest := source[index..];
    if "//" <= rest {
      var end := FindLineEnd(source, index);
      assert source[index..end] == rest[..end - index];
      return Ok(Lexeme(LineComment, source[index..end]));
    }
    if "/*" <= rest {
      var end := FindBlockEnd(source, index);
      if end.None? {
        return Err(UnterminatedComment);
      }
      assert source[index..end.value] == rest[..end.value - index];
      return Ok(Lexeme(BlockComment, source[index..end.value]));
    }
    if IsQuote(source[index]) {
      var end := FindQuotedEnd(source, index);
      if end.None? {
        return Err(UnterminatedString);
      }
      assert source[index..end.value] == rest[..end.value - index];
      return Ok(Lexeme(Quoted, source[index..end.value]));
    }
    var op := CompoundAt(rest);
    if op != "" {
      return Ok(Lexeme(Compound, op));
    }
    if "!=" <= rest {
      return Ok(Lexeme(NotEqual, "!="));
    }
    if source[index] == '&' {
      return Ok(Lexeme(Ampersand, "&"));
    }
    if IsIdentifierStart(source[index]) {
      var end := FindWordEnd(source, index);
      assert source[index..end] == rest[..end - index];
      return Ok(Lexeme(Word, source[index..end]));
    }
    assert source[index..index + 1] == rest[..1];
    return Ok(Lexeme(Plain, source[index..index + 1]));
  }

  /** The next lexeme, or why there is none. */
  method Cut(source: string, index: nat) returns (r: Result<Lexeme, Problem>)
    requires index < |source|
    ensures r.Err? ==> Split(source[index..]) == Err(Failure(r.error, 0))
    ensures r.Ok? ==> index < index + |r.value.text| <= |source|
    ensures r.Ok? ==> Split(source[index..]) == Prepend(r.value, Split(source[index + |r.value.text|..]))
  {
    r := Next(source, index);
    if r.Ok? {
      SplitAt(source, index, r.value);
    } else {
      FailAt(source, index, r.error);
    }
  }

  /** Writes what replaces the lexeme, and advances the context. */
  method Rewrite(source: string, index: nat, l: Lexeme, result: string, ctx: Context,
                 ghost goal: Result<string, Failure>)
    returns (longer: string, after: Context)
    requires index + |l.text| <= |source|
    requires Split(source[index..]) == Prepend(l, Split(source[index + |l.text|..]))
    requires Finish(Split(source[index..]), index, result, ctx) == goal
    ensures Finish(Split(source[index + |l.text|..]), index + |l.text|, longer, after) == goal
  {
    longer, after := result + Emit(l, ctx), After(l, ctx);
    FinishPrepend(l, Split(source[index + |l.text|..]), index, result, ctx);
  }

  /** The scanner loop: index, result, and the two context variables. */
  method MigrateBytes(source: string) returns (r: Result<string, Failure>)
    ensures r == Migrate(source)
  {
    var result, index, ctx := "", 0, START;
    ghost var goal := Migrate(source);
    FinishFromStart(source);
    while index < |source|
      invariant index <= |source|
      invariant Finish(Split(source[index..]), index, result, ctx) == goal
    {
      var next := Cut(source, index);
      if next.Err? {
        FinishFailed(Split(source[index..]), next.error, index, result, ctx, goal);
        return Err(Failure(next.error, index));
      }
      result, ctx := Rewrite(source, index, next.value, result, ctx, goal);
      index := index + |next.value.text|;
    }
    FinishAtEnd(source, result, ctx);
    return Ok(result);
  }
}
