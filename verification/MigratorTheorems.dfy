/** What the migrator promises about reruns and about the structure of the source. */
module MigratorTheorems {
  import opened Common
  import opened MigratorLexer
  import opened MigratorRerun

  // ----- scanning and writing a concatenation

  lemma {:induction false} AfterAllConcat(a: seq<Lexeme>, b: seq<Lexeme>, ctx: Context)
    ensures AfterAll(a + b, ctx) == AfterAll(b, AfterAll(a, ctx))
    decreases |a|
  {
    if a == [] {
      assert a + b == b;
    } else {
      assert (a + b)[1..] == a[1..] + b;
      AfterAllConcat(a[1..], b, After(a[0], ctx));
    }
  }

  lemma {:induction false} RenderConcat(a: seq<Lexeme>, b: seq<Lexeme>, ctx: Context)
    ensures Render(a + b, ctx) == Render(a, ctx) + Render(b, AfterAll(a, ctx))
    decreases |a|
  {
    if a == [] {
      assert a + b == b && "" + Render(b, ctx) == Render(b, ctx);
    } else {
      assert (a + b)[1..] == a[1..] + b;
      RenderConcat(a[1..], b, After(a[0], ctx));
      ConcatAssociative(Emit(a[0], ctx), Render(a[1..], After(a[0], ctx)), Render(b, AfterAll(a, ctx)));
    }
  }

  /** Every lexeme of a cut text is well formed. */
  lemma {:induction false} SplitWellCut(s: string)
    requires Split(s).Ok?
    ensures forall i :: 0 <= i < |Split(s).value| ==> WellCut(Split(s).value[i])
    decreases |s|
  {
    if s != "" {
      SplitHead(s);
      SplitWellCut(s[|Split(s).value[0].text|..]);
    }
  }

  // ----- what is not an operator of V1 is kept

  /** Cutting loses nothing. */
  lemma {:induction false} SplitLosesNothing(s: string)
    requires Split(s).Ok?
    ensures Text(Split(s).value) == s
    decreases |s|
  {
    if s != "" {
      SplitHead(s);
      var ls := Split(s).value;
      SplitLosesNothing(s[|ls[0].text|..]);
      PrefixAndRest(ls[0].text, s);
    }
  }

  lemma PrefixAndRest(prefix: string, s: string)
    requires prefix <= s
    ensures prefix + s[|prefix|..] == s
  {
  }

  /** A V1 operator: an uppercase word, a compound assignment, `!=`, or `&` in prefix position. */
  predicate IsV1(l: Lexeme, ctx: Context) {
    match l.kind
    case Compound => true
    case NotEqual => true
    case Ampersand => !ctx.canEnd
    case Word => OperatorOf(l.text).Some?
    case _ => false
  }

  predicate HasV1(ls: seq<Lexeme>, ctx: Context) {
    ls != [] && (IsV1(ls[0], ctx) || HasV1(ls[1..], After(ls[0], ctx)))
  }

  lemma {:induction false} RenderKeeps(ls: seq<Lexeme>, ctx: Context)
    requires !HasV1(ls, ctx) && forall i :: 0 <= i < |ls| ==> WellCut(ls[i])
    ensures Render(ls, ctx) == Text(ls)
  {
    if ls != [] {
      RenderKeeps(ls[1..], After(ls[0], ctx));
    }
  }

  /** A source without operators of V1 is not changed. */
  lemma V2IsKept(source: string)
    requires Split(source).Ok? && !HasV1(Split(source).value, START)
    ensures Migrate(source) == Ok(source)
  {
    SplitLosesNothing(source);
    SplitWellCut(source);
    RenderKeeps(Split(source).value, START);
  }

  // ----- rerunning

  /** The V1 words for `&`: a second run can only read them as the V1 unary `&`. */
  predicate IsAnd(l: Lexeme) {
    (l.kind == Word && l.text == "AND") || (l.kind == Compound && l.text == "=AND=")
  }

  /** Each `AND` and `=AND=` stands where an expression can end. */
  predicate AndsFollowOperands(ls: seq<Lexeme>, ctx: Context) {
    ls == [] || ((IsAnd(ls[0]) ==> ctx.canEnd) && AndsFollowOperands(ls[1..], After(ls[0], ctx)))
  }

  lemma RenderOne(a: Lexeme, ctx: Context)
    ensures Render([a], ctx) == Emit(a, ctx)
  {
    assert Emit(a, ctx) + "" == Emit(a, ctx);
  }

  lemma RenderTwo(a: Lexeme, b: Lexeme, ctx: Context)
    ensures Render([a, b], ctx) == Emit(a, ctx) + Emit(b, After(a, ctx))
  {
    RenderOne(b, After(a, ctx));
    assert [a, b][1..] == [b];
  }

  lemma RenderThree(a: Lexeme, b: Lexeme, c: Lexeme, ctx: Context)
    ensures Render([a, b, c], ctx) == Emit(a, ctx) + (Emit(b, After(a, ctx)) + Emit(c, After(b, After(a, ctx))))
  {
    RenderTwo(b, c, After(a, ctx));
    assert [a, b, c][1..] == [b, c];
  }

  lemma RenderReplacedWord(op: Operator, ctx: Context)
    ensures |Render(RespellWord(op), ctx)| == |V2Spelling(op)|
    ensures Render(RespellWord(op), ctx) == V2Spelling(op) <==> (op == And ==> ctx.canEnd)
  {
    var w := RespellWord(op);
    if op in {Shl, Shr} {
      RenderTwo(w[0], w[1], ctx);
    } else {
      RenderOne(w[0], ctx);
    }
  }

  lemma RenderWordAssignment(w: string, ctx: Context)
    requires OperatorOf(w).None?
    ensures Render([PlainOf('='), Lexeme(Word, w), PlainOf('=')], ctx) == "=" + w + "="
  {
    RenderThree(PlainOf('='), Lexeme(Word, w), PlainOf('='), ctx);
    ConcatAssociative("=", w, "=");
  }

  lemma RenderReplacedAssignment(op: Operator, ctx: Context)
    requires op in {IDiv, IMod, And, Xor, Or}
    ensures |Render(RespellAssignment(op), ctx)| == |V2Assignment(op)|
    ensures Render(RespellAssignment(op), ctx) == V2Assignment(op) <==> (op == And ==> ctx.canEnd)
  {
    if op == And {
      RenderTwo(Lexeme(Ampersand, "&"), PlainOf('='), ctx);
      ConcatInjective(if ctx.canEnd then "&" else "%", "=", "&", "=");
    } else if op == Or {
      RenderTwo(PlainOf('|'), PlainOf('='), ctx);
    } else {
      RenderWordAssignment(V2Spelling(op), ctx);
    }
  }

  /** Writing the respelled lexemes again gives a text of the same length, and the same
      text unless the lexeme was an `AND` in prefix position. */
  lemma RenderRespell(l: Lexeme, ctx: Context)
    requires WellCut(l)
    ensures |Render(Respell(l, ctx), ctx)| == |Emit(l, ctx)|
    ensures Render(Respell(l, ctx), ctx) == Emit(l, ctx) <==> (IsAnd(l) ==> ctx.canEnd)
  {
    match l.kind
    case Compound =>
      CompoundHasOperator(l.text);
      AndAssignment(l.text);
      RenderReplacedAssignment(CompoundOperator(l.text).value, ctx);
    case Word =>
      if OperatorOf(l.text).Some? {
        RenderReplacedWord(OperatorOf(l.text).value, ctx);
      } else {
        RenderOne(l, ctx);
      }
    case NotEqual => RenderTwo(PlainOf('<'), PlainOf('>'), ctx);
    case Ampersand => RenderOne(if ctx.canEnd then l else PlainOf('%'), ctx);
    case _ => RenderOne(l, ctx);
  }

  lemma AndAssignment(text: string)
    requires text in {"=IDIV=", "=IMOD=", "=AND=", "=XOR=", "=OR="}
    ensures CompoundOperator(text) == Some(And) <==> text == "=AND="
  {
    assert "=IDIV="[1..5] == "IDIV" && "=IMOD="[1..5] == "IMOD" && "=AND="[1..4] == "AND"
        && "=XOR="[1..4] == "XOR" && "=OR="[1..3] == "OR";
  }

  lemma ConcatInjective(a: string, b: string, c: string, d: string)
    requires |a| == |c|
    ensures a + b == c + d <==> a == c && b == d
  {
    assert (a + b)[..|a|] == a && (a + b)[|a|..] == b && (c + d)[..|c|] == c && (c + d)[|c|..] == d;
  }

  lemma {:induction false} RenderRespellAll(ls: seq<Lexeme>, ctx: Context)
    requires forall i :: 0 <= i < |ls| ==> WellCut(ls[i])
    ensures Render(RespellAll(ls, ctx), ctx) == Render(ls, ctx) <==> AndsFollowOperands(ls, ctx)
  {
    if ls != [] {
      var l, rest, after := ls[0], ls[1..], After(ls[0], ctx);
      RenderRespellAll(rest, after);
      RenderConcat(Respell(l, ctx), RespellAll(rest, after), ctx);
      AfterRespell(l, ctx);
      RenderRespell(l, ctx);
      ConcatInjective(Render(Respell(l, ctx), ctx), Render(RespellAll(rest, after), after),
                      Emit(l, ctx), Render(rest, after));
    }
  }

  /** The second run always succeeds, and it changes nothing exactly when every `AND` and
      `=AND=` of the original source follows an operand. */
  lemma RerunIsSafeIff(source: string)
    requires Migrate(source).Ok?
    ensures Migrate(Migrate(source).value).Ok?
    ensures Migrate(Migrate(source).value) == Migrate(source) <==> AndsFollowOperands(Split(source).value, START)
  {
    Relex(source, START);
    SplitWellCut(source);
    RenderRespellAll(Split(source).value, START);
  }

  lemma NoAndLeft(l: Lexeme, ctx: Context)
    requires WellCut(l)
    ensures forall i :: 0 <= i < |Respell(l, ctx)| ==> !IsAnd(Respell(l, ctx)[i])
  {
    if l.kind == Compound {
      CompoundHasOperator(l.text);
    }
  }

  lemma {:induction false} NoAndLeftAtAll(ls: seq<Lexeme>, ctx: Context)
    requires forall i :: 0 <= i < |ls| ==> WellCut(ls[i])
    ensures forall i :: 0 <= i < |RespellAll(ls, ctx)| ==> !IsAnd(RespellAll(ls, ctx)[i])
  {
    if ls != [] {
      NoAndLeft(ls[0], ctx);
      NoAndLeftAtAll(ls[1..], After(ls[0], ctx));
    }
  }

  lemma {:induction false} NoAndsAreFine(ls: seq<Lexeme>, ctx: Context)
    requires forall i :: 0 <= i < |ls| ==> !IsAnd(ls[i])
    ensures AndsFollowOperands(ls, ctx)
  {
    if ls != [] {
      NoAndsAreFine(ls[1..], After(ls[0], ctx));
    }
  }

  /** From the second run on nothing changes any more, whatever the source. */
  lemma ThirdRunEqualsSecond(source: string)
    requires Migrate(source).Ok?
    ensures var first := Migrate(source).value;
      Migrate(first).Ok? && Migrate(Migrate(first).value) == Migrate(first)
  {
    var first := Migrate(source).value;
    Relex(source, START);
    SplitWellCut(source);
    NoAndLeftAtAll(Split(source).value, START);
    NoAndsAreFine(Split(first).value, START);
    RerunIsSafeIff(first);
  }

  /** An `AND` in prefix position is changed by the second run as well. */
  lemma PrefixAndIsNotStable()
    ensures Migrate("AND") == Ok("&") && Migrate("&") == Ok("%")
  {
    LexTakes(Lexeme(Word, "AND"), "");
    LexTakes(Lexeme(Ampersand, "&"), "");
    assert "AND" + "" == "AND" && "&" + "" == "&";
    SplitCons(Lexeme(Word, "AND"), "");
    SplitCons(Lexeme(Ampersand, "&"), "");
    RenderOne(Lexeme(Word, "AND"), START);
    RenderOne(Lexeme(Ampersand, "&"), START);
  }

  // ----- structure

  /** A comment, string literal, bracket or line end, with the context it stands in. */
  datatype Mark = Mark(text: string, ctx: Context)

  predicate IsStructural(l: Lexeme) {
    match l.kind
    case LineComment => true
    case BlockComment => true
    case Quoted => true
    case Plain => l.text != "" && (l.text[0] in "()[]{}" || IsNewline(l.text[0]))
    case _ => false
  }

  function Skeleton(ls: seq<Lexeme>, ctx: Context): seq<Mark> {
    if ls == [] then []
    else (if IsStructural(ls[0]) then [Mark(ls[0].text, ctx)] else []) + Skeleton(ls[1..], After(ls[0], ctx))
  }

  lemma {:induction false} SkeletonConcat(a: seq<Lexeme>, b: seq<Lexeme>, ctx: Context)
    ensures Skeleton(a + b, ctx) == Skeleton(a, ctx) + Skeleton(b, AfterAll(a, ctx))
    decreases |a|
  {
    if a == [] {
      assert a + b == b;
    } else {
      assert (a + b)[1..] == a[1..] + b;
      SkeletonConcat(a[1..], b, After(a[0], ctx));
    }
  }

  lemma {:induction false} SkeletonOfNothing(ls: seq<Lexeme>, ctx: Context)
    requires forall i :: 0 <= i < |ls| ==> !IsStructural(ls[i])
    ensures Skeleton(ls, ctx) == []
  {
    if ls != [] {
      SkeletonOfNothing(ls[1..], After(ls[0], ctx));
    }
  }

  lemma OperatorsAreNotStructural(op: Operator)
    ensures forall i :: 0 <= i < |RespellWord(op)| ==> !IsStructural(RespellWord(op)[i])
    ensures forall i :: 0 <= i < |RespellAssignment(op)| ==> !IsStructural(RespellAssignment(op)[i])
  {
  }

  lemma NothingStructural(l: Lexeme, ctx: Context)
    requires WellCut(l) && Respell(l, ctx) != [l]
    ensures !IsStructural(l) && forall i :: 0 <= i < |Respell(l, ctx)| ==> !IsStructural(Respell(l, ctx)[i])
  {
    match l.kind
    case Compound =>
      CompoundHasOperator(l.text);
      OperatorsAreNotStructural(CompoundOperator(l.text).value);
    case Word => OperatorsAreNotStructural(OperatorOf(l.text).value);
    case NotEqual =>
    case _ =>
  }

  lemma SkeletonRespell(l: Lexeme, ctx: Context)
    requires WellCut(l)
    ensures Skeleton(Respell(l, ctx), ctx) == if IsStructural(l) then [Mark(l.text, ctx)] else []
  {
    if Respell(l, ctx) != [l] {
      NothingStructural(l, ctx);
      SkeletonOfNothing(Respell(l, ctx), ctx);
    }
  }

  lemma {:induction false} SkeletonRespellAll(ls: seq<Lexeme>, ctx: Context)
    requires forall i :: 0 <= i < |ls| ==> WellCut(ls[i])
    ensures Skeleton(RespellAll(ls, ctx), ctx) == Skeleton(ls, ctx)
  {
    if ls != [] {
      SkeletonRespellAll(ls[1..], After(ls[0], ctx));
      SkeletonConcat(Respell(ls[0], ctx), RespellAll(ls[1..], After(ls[0], ctx)), ctx);
      AfterRespell(ls[0], ctx);
      SkeletonRespell(ls[0], ctx);
    }
  }

  /** Whenever migration succeeds, its output scans again, with the same comments, string
      literals, brackets and line ends in the same order, each at the same bracket depth
      and with the same answer to whether an expression can end there. */
  lemma StructureIsPreserved(source: string)
    requires Migrate(source).Ok?
    ensures Split(Migrate(source).value).Ok?
    ensures Skeleton(Split(Migrate(source).value).value, START) == Skeleton(Split(source).value, START)
  {
    Relex(source, START);
    SplitWellCut(source);
    SkeletonRespellAll(Split(source).value, START);
  }
}
