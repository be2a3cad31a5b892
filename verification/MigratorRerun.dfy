/** Running the migrator on its own output: which lexemes the second run sees, when the
    second run changes nothing, and what every run preserves. */
module MigratorRerun {
  import opened Common
  import opened MigratorLexer

  // ----- what Lex depends on

  /** The text of `l` is one lexeme of its kind when nothing interferes from the right. */
  ghost predicate WellCut(l: Lexeme) {
    match l.kind
    case LineComment => "//" <= l.text && LineEnd(l.text, 2) == |l.text|
    case BlockComment => "/*" <= l.text && BlockEnd(l.text, 2) == Some(|l.text|)
    case Quoted => l.text != "" && IsQuote(l.text[0]) && QuotedEnd(l.text, 1, l.text[0]) == Some(|l.text|)
    case Compound => l.text in {"=IDIV=", "=IMOD=", "=AND=", "=XOR=", "=OR="}
    case NotEqual => l.text == "!="
    case Ampersand => l.text == "&"
    case Word =>
      && l.text != "" && IsIdentifierStart(l.text[0])
      && forall i :: 0 <= i < |l.text| ==> IsIdentifierContinue(l.text[i])
    case Plain => |l.text| == 1 && !IsQuote(l.text[0]) && l.text[0] != '&' && !IsIdentifierStart(l.text[0])
  }

  /** The text `x` to the right of `l` does not change where `l` ends or what it is. */
  ghost predicate Follows(l: Lexeme, x: string) {
    match l.kind
    case LineComment => x == "" || IsNewline(x[0])
    case Word => x == "" || !IsIdentifierContinue(x[0])
    case Plain =>
      && (l.text == "/" && x != "" ==> x[0] != '/' && x[0] != '*')
      && (l.text == "!" && x != "" ==> x[0] != '=')
      && (l.text == "=" ==> CompoundAt("=" + x) == "")
    case _ => true
  }

  lemma {:induction false} LineEndStable(s: string, t: string, i: nat)
    requires i <= |s| && i <= LineEnd(s, i) <= |t| && s[..LineEnd(s, i)] == t[..LineEnd(s, i)]
    requires LineEnd(s, i) == |t| || IsNewline(t[LineEnd(s, i)])
    ensures LineEnd(t, i) == LineEnd(s, i)
    decreases |s| - i
  {
    var e := LineEnd(s, i);
    if i < e {
      assert s[i] == s[..e][i] == t[i];
      LineEndStable(s, t, i + 1);
    }
  }

  lemma {:induction false} WordEndStable(s: string, t: string, i: nat)
    requires i <= |s| && WordEnd(s, i) <= |t| && s[..WordEnd(s, i)] == t[..WordEnd(s, i)]
    requires WordEnd(s, i) == |t| || !IsIdentifierContinue(t[WordEnd(s, i)])
    ensures WordEnd(t, i) == WordEnd(s, i)
    ensures forall k :: i <= k < WordEnd(s, i) ==> IsIdentifierContinue(s[k])
    decreases |s| - i
  {
    var e := WordEnd(s, i);
    if i < e {
      assert s[i] == s[..e][i] == t[i];
      WordEndStable(s, t, i + 1);
    }
  }

  lemma {:induction false} BlockEndStable(s: string, t: string, i: nat)
    requires BlockEnd(s, i).Some? && BlockEnd(s, i).value <= |t|
    requires s[..BlockEnd(s, i).value] == t[..BlockEnd(s, i).value]
    ensures BlockEnd(t, i) == BlockEnd(s, i)
    decreases |s| - i
  {
    var e := BlockEnd(s, i).value;
    assert s[i] == s[..e][i] == t[i] && s[i + 1] == s[..e][i + 1] == t[i + 1];
    if !(s[i] == '*' && s[i + 1] == '/') {
      BlockEndStable(s, t, i + 1);
    }
  }

  lemma {:induction false} QuotedEndStable(s: string, t: string, i: nat, q: char)
    requires QuotedEnd(s, i, q).Some? && QuotedEnd(s, i, q).value <= |t|
    requires s[..QuotedEnd(s, i, q).value] == t[..QuotedEnd(s, i, q).value]
    ensures QuotedEnd(t, i, q) == QuotedEnd(s, i, q)
    decreases |s| - i
  {
    var e := QuotedEnd(s, i, q).value;
    assert s[i] == s[..e][i] == t[i];
    if s[i] == '\\' {
      assert s[i + 1] == s[..e][i + 1] == t[i + 1];
      QuotedEndStable(s, t, i + 2, q);
    } else if s[i] != q {
      QuotedEndStable(s, t, i + 1, q);
    }
  }

  lemma CutLineComment(s: string)
    requires "//" <= s
    ensures var l := Lexeme(LineComment, s[..LineEnd(s, 2)]); WellCut(l) && Follows(l, s[|l.text|..])
  {
    var e := LineEnd(s, 2);
    LineEndStable(s, s[..e], 2);
    LineEndStops(s, 2);
  }

  lemma LineEndStops(s: string, i: nat)
    requires i <= |s|
    ensures LineEnd(s, i) < |s| ==> IsNewline(s[LineEnd(s, i)])
    decreases |s| - i
  {
  }

  lemma WordEndStops(s: string, i: nat)
    requires i <= |s|
    ensures WordEnd(s, i) < |s| ==> !IsIdentifierContinue(s[WordEnd(s, i)])
    decreases |s| - i
  {
  }

  lemma CutWord(s: string)
    requires s != "" && IsIdentifierStart(s[0])
    ensures var l := Lexeme(Word, s[..WordEnd(s, 1)]); WellCut(l) && Follows(l, s[|l.text|..])
  {
    var e := WordEnd(s, 1);
    WordEndStable(s, s[..e], 1);
    WordEndStops(s, 1);
  }

  /** The lexeme that Lex cuts off is well formed, and the rest follows it. */
  lemma LexCuts(s: string)
    requires s != "" && Lex(s).Ok?
    ensures WellCut(Lex(s).value) && Follows(Lex(s).value, s[|Lex(s).value.text|..])
  {
    var l := Lex(s).value;
    if "//" <= s {
      CutLineComment(s);
    } else if "/*" <= s {
      BlockEndStable(s, l.text, 2);
    } else if IsQuote(s[0]) {
      QuotedEndStable(s, l.text, 1, s[0]);
    } else if CompoundAt(s) == "" && !("!=" <= s) && s[0] != '&' {
      if IsIdentifierStart(s[0]) {
        CutWord(s);
      } else {
        assert s == [s[0]] + s[1..];
      }
    }
  }

  /** Conversely, a well formed lexeme is cut off again in front of any text that follows it. */
  lemma LexTakes(l: Lexeme, x: string)
    requires WellCut(l) && Follows(l, x)
    ensures l.text != "" && Lex(l.text + x) == Ok(l)
  {
    match l.kind
    case LineComment => LexTakesLine(l, x);
    case BlockComment => LexTakesBlock(l, x);
    case Quoted => LexTakesQuoted(l, x);
    case Word => LexTakesWord(l, x);
    case Compound => LexTakesCompound(l.text, x);
    case NotEqual => LexTakesNotEqual(x);
    case Ampersand => LexTakesAmpersand(x);
    case Plain => LexTakesPlain(l, x);
  }

  lemma LexTakesNotEqual(x: string)
    ensures Lex("!=" + x) == Ok(Lexeme(NotEqual, "!="))
  {
    var s := "!=" + x;
    assert s[0] == '!' && "!=" <= s;
  }

  lemma LexTakesAmpersand(x: string)
    ensures Lex("&" + x) == Ok(Lexeme(Ampersand, "&"))
  {
    var s := "&" + x;
    assert s[0] == '&';
  }

  lemma LexTakesLine(l: Lexeme, x: string)
    requires l.kind == LineComment && WellCut(l) && Follows(l, x)
    ensures Lex(l.text + x) == Ok(l)
  {
    var s := l.text + x;
    assert s[..|l.text|] == l.text;
    LineEndStable(l.text, s, 2);
  }

  lemma LexTakesBlock(l: Lexeme, x: string)
    requires l.kind == BlockComment && WellCut(l)
    ensures Lex(l.text + x) == Ok(l)
  {
    var s := l.text + x;
    assert s[..|l.text|] == l.text && s[0] == l.text[0] && s[1] == l.text[1];
    BlockEndStable(l.text, s, 2);
  }

  lemma LexTakesQuoted(l: Lexeme, x: string)
    requires l.kind == Quoted && WellCut(l)
    ensures Lex(l.text + x) == Ok(l)
  {
    var s := l.text + x;
    assert s[..|l.text|] == l.text && s[0] == l.text[0];
    QuotedEndStable(l.text, s, 1, l.text[0]);
  }

  lemma LexTakesPlain(l: Lexeme, x: string)
    requires l.kind == Plain && WellCut(l) && Follows(l, x)
    ensures Lex(l.text + x) == Ok(l)
  {
    var s := l.text + x;
    assert l.text == [s[0]] && s[1..] == x && s[..1] == l.text;
    if s[0] != '=' {
      assert CompoundAt(s) == "";
    }
  }

  lemma LexTakesCompound(op: string, x: string)
    requires op in {"=IDIV=", "=IMOD=", "=AND=", "=XOR=", "=OR="}
    ensures Lex(op + x) == Ok(Lexeme(Compound, op))
  {
    var s := op + x;
    assert op <= s && s[0] == op[0] && s[1] == op[1] && s[2] == op[2];
  }

  lemma {:induction false} WordEndAll(w: string, i: nat)
    requires i <= |w| && forall k :: i <= k < |w| ==> IsIdentifierContinue(w[k])
    ensures WordEnd(w, i) == |w|
    decreases |w| - i
  {
    if i < |w| {
      WordEndAll(w, i + 1);
    }
  }

  lemma LexTakesWord(l: Lexeme, x: string)
    requires l.kind == Word && WellCut(l) && Follows(l, x)
    ensures Lex(l.text + x) == Ok(l)
  {
    var s := l.text + x;
    WordEndAll(l.text, 1);
    WordEndStable(l.text, s, 1);
    assert s[0] == l.text[0];
  }

  // ----- what the migrated text looks like from the left

  lemma SplitHead(s: string)
    requires s != "" && Split(s).Ok?
    ensures var ls := Split(s).value;
      && ls != [] && Lex(s) == Ok(ls[0]) && ls[0].text <= s
      && Split(s[|ls[0].text|..]) == Ok(ls[1..])
      && WellCut(ls[0]) && Follows(ls[0], s[|ls[0].text|..])
  {
    LexCuts(s);
    var l := Lex(s).value;
    assert Split(s) == Prepend(l, Split(s[|l.text|..]));
  }

  /** No operator is spelled with a leading character that could complete a comment, a `!=`
      or a compound operator. */
  lemma SpellingHead(op: Operator)
    ensures V2Spelling(op) != ""
    ensures V2Spelling(op)[0] !in {'/', '*', '=', 'A', 'I', 'O', 'X'} && !IsNewline(V2Spelling(op)[0])
  {
  }

  lemma AssignmentHead(op: Operator)
    ensures V2Assignment(op) != "" && V2Assignment(op)[0] in {'&', '|', '='}
  {
  }

  /** A replacement starts with an identifier character only if it replaces one, and never
      with a character that could complete a comment, a `!=` or a compound operator. */
  lemma EmitHead(l: Lexeme, ctx: Context)
    requires WellCut(l)
    ensures l.text != "" && Emit(l, ctx) != ""
    ensures !IsIdentifierContinue(l.text[0]) ==> !IsIdentifierContinue(Emit(l, ctx)[0])
    ensures IsNewline(l.text[0]) ==> Emit(l, ctx)[0] == l.text[0]
    ensures Emit(l, ctx)[0] in {'/', '*', '='} ==> Emit(l, ctx)[0] == l.text[0]
    ensures (l.kind == Word && OperatorOf(l.text).None?) || Emit(l, ctx)[0] !in {'A', 'I', 'O', 'X'}
  {
    match l.kind
    case Word =>
      if OperatorOf(l.text).Some? {
        SpellingHead(OperatorOf(l.text).value);
      }
    case Compound =>
      assert l.text[0] == '=';
      if CompoundOperator(l.text).Some? {
        AssignmentHead(CompoundOperator(l.text).value);
      }
    case _ =>
  }

  lemma RenderHead(s: string, ctx: Context)
    requires Split(s).Ok?
    ensures var o := Render(Split(s).value, ctx);
      && (s == "" <==> o == "")
      && (s != "" ==>
        && (!IsIdentifierContinue(s[0]) ==> !IsIdentifierContinue(o[0]))
        && (IsNewline(s[0]) ==> o[0] == s[0])
        && (o[0] in {'/', '*', '='} ==> o[0] == s[0]))
  {
    if s != "" {
      SplitHead(s);
      EmitHead(Split(s).value[0], ctx);
    }
  }

  /** If a text made of a word and a non-word remainder starts with a word and an `=`,
      it is that word. */
  lemma WordBeforeEquals(w: string, x: string, op: string)
    requires op + "=" <= w + x
    requires forall i :: 0 <= i < |w| ==> IsIdentifierContinue(w[i])
    requires forall i :: 0 <= i < |op| ==> IsIdentifierContinue(op[i])
    requires x == "" || !IsIdentifierContinue(x[0])
    ensures w == op
  {
    var t := w + x;
    assert forall i :: 0 <= i < |op| ==> t[i] == (op + "=")[i] == op[i];
    assert t[|op|] == (op + "=")[|op|] == '=';
    assert |w| <= |op|;
    assert |w| < |t| && !IsIdentifierContinue(t[|w|]);
  }

  lemma NotThisCompound(w: string, x: string, op: string)
    requires forall i :: 0 <= i < |w| ==> IsIdentifierContinue(w[i])
    requires forall i :: 0 <= i < |op| ==> IsIdentifierContinue(op[i])
    requires w != op && (x == "" || !IsIdentifierContinue(x[0]))
    ensures !("=" + op + "=" <= "=" + (w + x))
  {
    if "=" + op + "=" <= "=" + (w + x) {
      assert ("=" + op + "=")[1..] == op + "=" && ("=" + (w + x))[1..] == w + x;
      WordBeforeEquals(w, x, op);
    }
  }

  lemma NoCompoundAfterWord(w: string, x: string)
    requires forall i :: 0 <= i < |w| ==> IsIdentifierContinue(w[i])
    requires OperatorOf(w).None? && (x == "" || !IsIdentifierContinue(x[0]))
    ensures CompoundAt("=" + (w + x)) == ""
  {
    NotThisCompound(w, x, "IDIV");
    NotThisCompound(w, x, "IMOD");
    NotThisCompound(w, x, "AND");
    NotThisCompound(w, x, "XOR");
    NotThisCompound(w, x, "OR");
    assert "=" + "IDIV" + "=" == "=IDIV=" && "=" + "IMOD" + "=" == "=IMOD=" && "=" + "AND" + "=" == "=AND="
        && "=" + "XOR" + "=" == "=XOR=" && "=" + "OR" + "=" == "=OR=";
  }

  lemma NoCompoundAfterSymbol(x: string)
    requires x == "" || x[0] !in {'A', 'I', 'O', 'X'}
    ensures CompoundAt("=" + x) == ""
  {
    var t := "=" + x;
    if x != "" {
      assert t[1] == x[0];
    }
  }

  /** No migrated text continues an `=` to a V1 compound operator. */
  lemma NoCompound(s: string, ctx: Context)
    requires Split(s).Ok?
    ensures CompoundAt("=" + Render(Split(s).value, ctx)) == ""
  {
    if s == "" {
      NoCompoundAfterSymbol("");
      return;
    }
    SplitHead(s);
    var l, r := Split(s).value[0], s[|Split(s).value[0].text|..];
    var o := Render(Split(r).value, After(l, ctx));
    EmitHead(l, ctx);
    if l.kind == Word && OperatorOf(l.text).None? {
      RenderHead(r, After(l, ctx));
      NoCompoundAfterWord(l.text, o);
    } else {
      NoCompoundAfterSymbol(Emit(l, ctx) + o);
    }
  }

  /** Migrating what follows a lexeme never disturbs that lexeme. */
  lemma FollowsRendered(l: Lexeme, s: string, ctx: Context)
    requires WellCut(l) && Follows(l, s) && Split(s).Ok?
    ensures Follows(l, Render(Split(s).value, ctx))
  {
    RenderHead(s, ctx);
    NoCompound(s, ctx);
  }

  // ----- the second run

  function PlainOf(c: char): Lexeme {
    Lexeme(Plain, [c])
  }

  function RespellWord(op: Operator): seq<Lexeme> {
    match op
    case And => [Lexeme(Ampersand, "&")]
    case Or => [PlainOf('|')]
    case Not => [PlainOf('~')]
    case Shl => [PlainOf('<'), PlainOf('<')]
    case Shr => [PlainOf('>'), PlainOf('>')]
    case _ => [Lexeme(Word, V2Spelling(op))]
  }

  function RespellAssignment(op: Operator): seq<Lexeme> {
    match op
    case And => [Lexeme(Ampersand, "&"), PlainOf('=')]
    case Or => [PlainOf('|'), PlainOf('=')]
    case _ => [PlainOf('='), Lexeme(Word, V2Spelling(op)), PlainOf('=')]
  }

  /** The lexemes of the text written for `l`. */
  function Respell(l: Lexeme, ctx: Context): seq<Lexeme> {
    match l.kind
    case Compound => if CompoundOperator(l.text).Some? then RespellAssignment(CompoundOperator(l.text).value) else [l]
    case NotEqual => [PlainOf('<'), PlainOf('>')]
    case Ampersand => if ctx.canEnd then [l] else [PlainOf('%')]
    case Word => if OperatorOf(l.text).Some? then RespellWord(OperatorOf(l.text).value) else [l]
    case _ => [l]
  }

  function RespellAll(ls: seq<Lexeme>, ctx: Context): seq<Lexeme> {
    if ls == [] then [] else Respell(ls[0], ctx) + RespellAll(ls[1..], After(ls[0], ctx))
  }

  function Text(ls: seq<Lexeme>): string {
    if ls == [] then "" else ls[0].text + Text(ls[1..])
  }

  /** Each lexeme is well formed and followed by the ones behind it and then `x`. */
  ghost predicate Chain(ls: seq<Lexeme>, x: string) {
    ls == [] || (WellCut(ls[0]) && Follows(ls[0], Text(ls[1..]) + x) && Chain(ls[1..], x))
  }

  lemma SplitTakes(l: Lexeme, x: string, tail: seq<Lexeme>)
    requires WellCut(l) && Follows(l, x) && Split(x) == Ok(tail)
    ensures Split(l.text + x) == Ok([l] + tail)
  {
    LexTakes(l, x);
    SplitCons(l, x);
  }

  lemma {:induction false} SplitChain(ls: seq<Lexeme>, x: string, tail: seq<Lexeme>)
    requires Chain(ls, x) && Split(x) == Ok(tail)
    ensures Split(Text(ls) + x) == Ok(ls + tail)
    decreases |ls|
  {
    if ls == [] {
      assert Text(ls) + x == x && ls + tail == tail;
    } else {
      var rest := ls[1..];
      SplitChain(rest, x, tail);
      SplitTakes(ls[0], Text(rest) + x, rest + tail);
      ConcatAssociative(ls[0].text, Text(rest), x);
      ConcatAssociative([ls[0]], rest, tail);
      assert ls == [ls[0]] + rest;
    }
  }

  lemma ChainOne(a: Lexeme, x: string)
    ensures Text([a]) == a.text
    ensures WellCut(a) && Follows(a, x) ==> Chain([a], x)
  {
    assert "" + x == x && a.text + "" == a.text;
  }

  lemma ChainTwo(a: Lexeme, b: Lexeme, x: string)
    ensures Text([a, b]) == a.text + b.text
    ensures WellCut(a) && WellCut(b) && Follows(a, b.text + x) && Follows(b, x) ==> Chain([a, b], x)
  {
    ChainOne(b, x);
    assert [a, b][1..] == [b];
  }

  lemma ChainThree(a: Lexeme, b: Lexeme, c: Lexeme, x: string)
    ensures Text([a, b, c]) == a.text + (b.text + c.text)
    requires WellCut(a) && WellCut(b) && WellCut(c)
    requires Follows(a, b.text + c.text + x) && Follows(b, c.text + x) && Follows(c, x)
    ensures Chain([a, b, c], x)
  {
    ChainTwo(b, c, x);
    assert [a, b, c][1..] == [b, c];
  }

  lemma CompoundHasOperator(text: string)
    requires text in {"=IDIV=", "=IMOD=", "=AND=", "=XOR=", "=OR="}
    ensures CompoundOperator(text) in {Some(IDiv), Some(IMod), Some(And), Some(Xor), Some(Or)}
  {
    assert "=IDIV="[1..5] == "IDIV" && "=IMOD="[1..5] == "IMOD" && "=AND="[1..4] == "AND"
        && "=XOR="[1..4] == "XOR" && "=OR="[1..3] == "OR";
  }

  predicate IsLowerWord(w: string) {
    w != "" && forall i :: 0 <= i < |w| ==> 'a' <= w[i] <= 'z'
  }

  lemma V2WordIsWord(op: Operator)
    requires op in {Xor, IDiv, IMod}
    ensures IsLowerWord(V2Spelling(op))
  {
  }

  lemma WordAssignmentChain(w: string, x: string)
    requires IsLowerWord(w) && CompoundAt("=" + x) == ""
    ensures var r := [PlainOf('='), Lexeme(Word, w), PlainOf('=')]; Text(r) == "=" + w + "=" && Chain(r, x)
  {
    var y := w + "=" + x;
    assert y[0] == w[0];
    NoCompoundAfterSymbol(y);
    ConcatAssociative("=", w, "=");
    ChainThree(PlainOf('='), Lexeme(Word, w), PlainOf('='), x);
  }

  lemma SymbolAssignmentChain(a: Lexeme, x: string)
    requires a in {Lexeme(Ampersand, "&"), PlainOf('|')} && CompoundAt("=" + x) == ""
    ensures Text([a, PlainOf('=')]) == a.text + "=" && Chain([a, PlainOf('=')], x)
  {
    ChainTwo(a, PlainOf('='), x);
  }

  lemma AssignmentChain(op: Operator, x: string)
    requires op in {IDiv, IMod, And, Xor, Or} && CompoundAt("=" + x) == ""
    ensures Text(RespellAssignment(op)) == V2Assignment(op) && Chain(RespellAssignment(op), x)
  {
    if op in {And, Or} {
      SymbolAssignmentChain(RespellAssignment(op)[0], x);
    } else {
      V2WordIsWord(op);
      WordAssignmentChain(V2Spelling(op), x);
    }
  }

  lemma ShiftChain(c: char, x: string)
    requires c == '<' || c == '>'
    ensures Text([PlainOf(c), PlainOf(c)]) == [c, c] && Chain([PlainOf(c), PlainOf(c)], x)
  {
    ChainTwo(PlainOf(c), PlainOf(c), x);
  }

  lemma WordChain(op: Operator, x: string)
    requires x == "" || !IsIdentifierContinue(x[0])
    ensures Text(RespellWord(op)) == V2Spelling(op) && Chain(RespellWord(op), x)
  {
    if op in {Shl, Shr} {
      ShiftChain(if op == Shl then '<' else '>', x);
    } else {
      if op in {Xor, IDiv, IMod} {
        V2WordIsWord(op);
      }
      ChainOne(RespellWord(op)[0], x);
    }
  }

  /** One lexeme of the first run: its output cuts into `Respell`, in front of whatever
      the rest of the output is. */
  lemma RespellChain(l: Lexeme, ctx: Context, x: string)
    requires WellCut(l) && Follows(l, x) && CompoundAt("=" + x) == ""
    ensures Text(Respell(l, ctx)) == Emit(l, ctx)
    ensures Chain(Respell(l, ctx), x)
  {
    match l.kind
    case Compound =>
      CompoundHasOperator(l.text);
      AssignmentChain(CompoundOperator(l.text).value, x);
    case Word =>
      if OperatorOf(l.text).Some? {
        WordChain(OperatorOf(l.text).value, x);
      } else {
        ChainOne(l, x);
      }
    case NotEqual => ChainTwo(PlainOf('<'), PlainOf('>'), x);
    case Ampersand => ChainOne(if ctx.canEnd then l else PlainOf('%'), x);
    case _ => ChainOne(l, x);
  }

  /** The second run cuts the output of the first exactly into the respelled lexemes: no
      replacement creates, ends or merges a token, in any context. */
  lemma {:induction false} Relex(s: string, ctx: Context)
    requires Split(s).Ok?
    ensures Split(Render(Split(s).value, ctx)) == Ok(RespellAll(Split(s).value, ctx))
    decreases |s|
  {
    if s != "" {
      SplitHead(s);
      var ls := Split(s).value;
      var l, r := ls[0], s[|ls[0].text|..];
      Relex(r, After(l, ctx));
      FollowsRendered(l, r, After(l, ctx));
      NoCompound(r, After(l, ctx));
      var o := Render(ls[1..], After(l, ctx));
      RespellChain(l, ctx, o);
      SplitChain(Respell(l, ctx), o, RespellAll(ls[1..], After(l, ctx)));
    }
  }

  // ----- the two runs keep the same context

  lemma AfterOne(a: Lexeme, ctx: Context)
    ensures AfterAll([a], ctx) == After(a, ctx)
  {
  }

  lemma AfterTwo(a: Lexeme, b: Lexeme, ctx: Context)
    ensures AfterAll([a, b], ctx) == After(b, After(a, ctx))
  {
    AfterOne(b, After(a, ctx));
    assert [a, b][1..] == [b];
  }

  lemma AfterThree(a: Lexeme, b: Lexeme, c: Lexeme, ctx: Context)
    ensures AfterAll([a, b, c], ctx) == After(c, After(b, After(a, ctx)))
  {
    assert [a, b, c][1..] == [b, c];
    AfterTwo(b, c, After(a, ctx));
  }

  lemma {:induction false} ListedAt(list: seq<string>, k: nat, i: nat)
    requires k <= i < |list|
    ensures IsListed(list[i], list, k)
    decreases i - k
  {
    if k < i {
      ListedAt(list, k + 1, i);
    }
  }

  lemma AfterV2Word(op: Operator, ctx: Context)
    requires op in {Xor, IDiv, IMod}
    ensures After(Lexeme(Word, V2Spelling(op)), ctx) == ctx.(canEnd := false)
  {
    var i := if op == Xor then 5 else if op == IDiv then 6 else 8;
    assert NON_TERMINATING_WORDS[i] == V2Spelling(op);
    ListedAt(NON_TERMINATING_WORDS, 0, i);
  }

  lemma AfterSymbol(c: char, ctx: Context)
    requires c in {'=', '<', '>', '|', '~', '%'}
    ensures After(PlainOf(c), ctx) == ctx.(canEnd := false)
  {
  }

  /** No replacement can end an expression, in either spelling. */
  lemma AfterReplacedWord(op: Operator, ctx: Context)
    ensures AfterAll(RespellWord(op), ctx) == ctx.(canEnd := false)
  {
    var w := RespellWord(op);
    if op in {Xor, IDiv, IMod} {
      AfterV2Word(op, ctx);
      AfterOne(w[0], ctx);
    } else if op in {Shl, Shr} {
      AfterTwo(w[0], w[1], ctx);
    } else {
      AfterOne(w[0], ctx);
    }
  }

  lemma AfterReplacedAssignment(op: Operator, ctx: Context)
    requires op in {IDiv, IMod, And, Xor, Or}
    ensures AfterAll(RespellAssignment(op), ctx) == ctx.(canEnd := false)
  {
    var a := RespellAssignment(op);
    AfterSymbol('=', ctx);
    AfterSymbol('=', ctx.(canEnd := false));
    if op in {And, Or} {
      AfterTwo(a[0], a[1], ctx);
    } else {
      AfterV2Word(op, ctx.(canEnd := false));
      AfterThree(a[0], a[1], a[2], ctx);
    }
  }

  /** Scanning the respelled lexemes ends in the context that scanning the lexeme ends in. */
  lemma AfterRespell(l: Lexeme, ctx: Context)
    requires WellCut(l)
    ensures AfterAll(Respell(l, ctx), ctx) == After(l, ctx)
  {
    match l.kind
    case Compound =>
      CompoundHasOperator(l.text);
      AfterReplacedAssignment(CompoundOperator(l.text).value, ctx);
    case Word =>
      if OperatorOf(l.text).Some? {
        AfterReplacedWord(OperatorOf(l.text).value, ctx);
      }
    case NotEqual => AfterTwo(PlainOf('<'), PlainOf('>'), ctx);
    case _ =>
  }
}
