/** What the migrator writes, said by position: a lexeme stands behind an operand or not, by
    the lexemes before it, and each lexeme is written by its own text and that. */
module MigratorOperands {
  import opened Common
  import opened MigratorLexer
  import opened MigratorRerun
  import opened MigratorTheorems

  // ----- brackets

  predicate Opens(l: Lexeme) {
    l.kind == Plain && (l.text == "(" || l.text == "[")
  }

  predicate Closes(l: Lexeme) {
    l.kind == Plain && (l.text == ")" || l.text == "]")
  }

  /** Opening brackets minus closing ones. */
  function Balance(ls: seq<Lexeme>): int {
    if ls == [] then 0
    else Balance(ls[..|ls| - 1]) + (if Opens(ls[|ls| - 1]) then 1 else if Closes(ls[|ls| - 1]) then -1 else 0)
  }

  /** From some lexeme on, more brackets have been opened than closed. */
  ghost predicate InBrackets(ls: seq<Lexeme>, k: nat)
    requires k <= |ls|
  {
    exists j :: 0 <= j < k && Balance(ls[j..k]) > 0
  }

  // ----- significant lexemes

  predicate IsBlank(l: Lexeme) {
    l.kind == Plain && (l.text == " " || l.text == "\t")
  }

  predicate IsComment(l: Lexeme) {
    l.kind == LineComment || l.kind == BlockComment
  }

  /** A block comment or a character that contains a line end. */
  predicate EndsLine(l: Lexeme) {
    (l.kind == BlockComment || l.kind == Plain) && ('\r' in l.text || '\n' in l.text)
  }

  /** Blanks do not matter, nor comments within a line, nor line ends between brackets. */
  ghost predicate Matters(ls: seq<Lexeme>, k: nat)
    requires k < |ls|
  {
    var l := ls[k];
    !IsBlank(l) && (IsComment(l) ==> EndsLine(l)) && (EndsLine(l) ==> !InBrackets(ls, k))
  }

  const KEYWORDS: seq<string> := [
    "and", "or", "not", "is", "as", "xor", "div", "rem", "mod",
    "if", "elif", "while", "for", "step", "return", "raise",
    "delete", "new", "var", "const"]

  const OPERATORS: seq<string> := ["AND", "OR", "NOT", "XOR", "IDIV", "IMOD", "SHL", "SHR"]

  /** A string, a word that is neither keyword nor operator, a digit, a closing bracket, or "^". */
  predicate EndsOperand(l: Lexeme) {
    || l.kind == Quoted
    || (l.kind == Word && l.text !in KEYWORDS && l.text !in OPERATORS)
    || (l.kind == Plain && l.text != ""
        && ('0' <= l.text[0] <= '9' || l.text == ")" || l.text == "]" || l.text == "}" || l.text == "^"))
  }

  /** The last lexeme before position `k` that matters ends an operand. */
  ghost predicate AfterOperand(ls: seq<Lexeme>, k: nat)
    requires k <= |ls|
  {
    exists j :: 0 <= j < k && Matters(ls, j) && EndsOperand(ls[j]) && forall i :: j < i < k ==> !Matters(ls, i)
  }

  // ----- the scanner's context is that

  lemma {:induction false} ListedIff(word: string, list: seq<string>, k: nat)
    requires k <= |list|
    ensures IsListed(word, list, k) <==> word in list[k..]
    decreases |list| - k
  {
    if k < |list| {
      ListedIff(word, list, k + 1);
      assert list[k..] == [list[k]] + list[k + 1..];
    }
  }

  lemma KeywordsAre(word: string)
    ensures EndsNoExpression(word) <==> word in KEYWORDS
  {
    ListedIff(word, NON_TERMINATING_WORDS, 0);
    assert NON_TERMINATING_WORDS[0..] == NON_TERMINATING_WORDS == KEYWORDS;
  }

  lemma OperatorsAre(word: string)
    ensures OperatorOf(word).Some? <==> word in OPERATORS
  {
    assert OPERATORS == ["AND", "OR", "NOT", "XOR"] + ["IDIV", "IMOD", "SHL", "SHR"];
  }

  lemma {:induction false} AfterAllAppend(ls: seq<Lexeme>, l: Lexeme, ctx: Context)
    ensures AfterAll(ls + [l], ctx) == After(l, AfterAll(ls, ctx))
    decreases |ls|
  {
    AfterAllConcat(ls, [l], ctx);
    AfterOne(l, AfterAll(ls, ctx));
  }

  /** The context before the lexeme at `k`. */
  function ContextAt(ls: seq<Lexeme>, k: nat): Context
    requires k <= |ls|
  {
    AfterAll(ls[..k], START)
  }

  lemma ContextStep(ls: seq<Lexeme>, k: nat)
    requires k < |ls|
    ensures ContextAt(ls, k + 1) == After(ls[k], ContextAt(ls, k))
  {
    assert ls[..k + 1] == ls[..k] + [ls[k]];
    AfterAllAppend(ls[..k], ls[k], START);
  }

  /** How the count of open brackets changes. */
  lemma NestingStep(l: Lexeme, ctx: Context)
    requires WellCut(l)
    ensures After(l, ctx).nesting ==
      if Opens(l) then ctx.nesting + 1 else if Closes(l) && ctx.nesting > 0 then ctx.nesting - 1 else ctx.nesting
  {
    if l.kind == Plain {
      assert l.text == [l.text[0]];
    }
  }

  lemma BalanceAppend(ls: seq<Lexeme>, j: nat, k: nat)
    requires j <= k < |ls|
    ensures Balance(ls[j..k + 1])
         == Balance(ls[j..k]) + (if Opens(ls[k]) then 1 else if Closes(ls[k]) then -1 else 0)
  {
    assert ls[j..k + 1][..|ls[j..k + 1]| - 1] == ls[j..k] && ls[j..k + 1][|ls[j..k + 1]| - 1] == ls[k];
  }

  /** The count of open brackets is the most that any stretch up to `k` leaves open. */
  ghost predicate IsGreatest(ls: seq<Lexeme>, k: nat, n: nat)
    requires k <= |ls|
  {
    && (forall j :: 0 <= j <= k ==> Balance(ls[j..k]) <= n)
    && exists j :: 0 <= j <= k && Balance(ls[j..k]) == n
  }

  lemma GreatestStep(ls: seq<Lexeme>, k: nat, n: nat)
    requires k < |ls| && IsGreatest(ls, k, n) && !(Opens(ls[k]) && Closes(ls[k]))
    ensures IsGreatest(ls, k + 1, if Opens(ls[k]) then n + 1 else if Closes(ls[k]) && n > 0 then n - 1 else n)
  {
    var m := if Opens(ls[k]) then n + 1 else if Closes(ls[k]) && n > 0 then n - 1 else n;
    var next := k + 1;
    assert ls[next..next] == [];
    forall j | 0 <= j <= next ensures Balance(ls[j..next]) <= m {
      if j <= k {
        BalanceAppend(ls, j, k);
      }
    }
    if Closes(ls[k]) && n == 0 {
      assert Balance(ls[k + 1..k + 1]) == m;
    } else {
      var top :| 0 <= top <= k && Balance(ls[top..k]) == n;
      BalanceAppend(ls, top, k);
      assert Balance(ls[top..k + 1]) == m;
    }
  }

  lemma {:induction false} NestingIs(ls: seq<Lexeme>, k: nat)
    requires k <= |ls| && forall i :: 0 <= i < |ls| ==> WellCut(ls[i])
    ensures IsGreatest(ls, k, ContextAt(ls, k).nesting)
    decreases k
  {
    if k == 0 {
      assert ls[..0] == [] && ls[0..0] == [] && Balance(ls[0..0]) == 0;
    } else {
      NestingIs(ls, k - 1);
      ContextStep(ls, k - 1);
      NestingStep(ls[k - 1], ContextAt(ls, k - 1));
      GreatestStep(ls, k - 1, ContextAt(ls, k - 1).nesting);
    }
  }

  lemma BracketsAre(ls: seq<Lexeme>, k: nat)
    requires k <= |ls| && forall i :: 0 <= i < |ls| ==> WellCut(ls[i])
    ensures InBrackets(ls, k) <==> ContextAt(ls, k).nesting > 0
  {
    NestingIs(ls, k);
    assert ls[k..k] == [];
    var top :| 0 <= top <= k && Balance(ls[top..k]) == ContextAt(ls, k).nesting;
  }

  lemma LineEndsAre(l: Lexeme)
    ensures HasNewline(l.text) <==> '\r' in l.text || '\n' in l.text
  {
  }

  /** How one lexeme changes whether an expression can end. */
  lemma CanEndStep(ls: seq<Lexeme>, k: nat)
    requires k < |ls| && forall i :: 0 <= i < |ls| ==> WellCut(ls[i])
    ensures After(ls[k], ContextAt(ls, k)).canEnd
         == if Matters(ls, k) then EndsOperand(ls[k]) else ContextAt(ls, k).canEnd
  {
    var l, ctx := ls[k], ContextAt(ls, k);
    BracketsAre(ls, k);
    LineEndsAre(l);
    match l.kind
    case Word =>
      KeywordsAre(l.text);
      OperatorsAre(l.text);
    case Plain => PlainStep(l, ctx);
    case _ =>
  }

  lemma PlainStep(l: Lexeme, ctx: Context)
    requires l.kind == Plain && WellCut(l)
    ensures After(l, ctx).canEnd
         == if IsBlank(l) || (EndsLine(l) && ctx.nesting > 0) then ctx.canEnd else EndsOperand(l)
  {
    assert l.text == [l.text[0]];
  }

  lemma OperandStep(ls: seq<Lexeme>, k: nat)
    requires k < |ls|
    ensures AfterOperand(ls, k + 1) <==> if Matters(ls, k) then EndsOperand(ls[k]) else AfterOperand(ls, k)
  {
    if !Matters(ls, k) && AfterOperand(ls, k) {
      var j :| 0 <= j < k && Matters(ls, j) && EndsOperand(ls[j]) && forall i :: j < i < k ==> !Matters(ls, i);
      assert forall i :: j < i < k + 1 ==> !Matters(ls, i);
    }
  }

  /** An expression can end before the lexeme at `k` exactly when the last one that matters
      ends an operand. */
  lemma {:induction false} CanEndIff(ls: seq<Lexeme>, k: nat)
    requires k <= |ls| && forall i :: 0 <= i < |ls| ==> WellCut(ls[i])
    ensures ContextAt(ls, k).canEnd <==> AfterOperand(ls, k)
    decreases k
  {
    if k == 0 {
      assert ls[..0] == [];
    } else {
      CanEndIff(ls, k - 1);
      ContextStep(ls, k - 1);
      CanEndStep(ls, k - 1);
      OperandStep(ls, k - 1);
    }
  }

  // ----- what is written

  /** Each V1 operator and its V2 spelling. */
  const SPELLINGS: map<string, string> := map[
    "AND" := "&", "OR" := "|", "NOT" := "~", "XOR" := "xor",
    "IDIV" := "div", "IMOD" := "mod", "SHL" := "<<", "SHR" := ">>"]

  const ASSIGNMENTS: map<string, string> := map[
    "=AND=" := "&=", "=OR=" := "|=", "=XOR=" := "=xor=", "=IDIV=" := "=div=", "=IMOD=" := "=mod="]

  /** What the lexeme at `k` is written as. */
  ghost function WrittenAs(ls: seq<Lexeme>, k: nat): string
    requires k < |ls|
  {
    var l := ls[k];
    match l.kind
    case Ampersand => if AfterOperand(ls, k) then "&" else "%"
    case NotEqual => "<>"
    case Word => if l.text in SPELLINGS then SPELLINGS[l.text] else l.text
    case Compound => if l.text in ASSIGNMENTS then ASSIGNMENTS[l.text] else l.text
    case _ => l.text
  }

  lemma WordIsSpelled(word: string)
    ensures OperatorOf(word).Some? <==> word in SPELLINGS
    ensures word in SPELLINGS ==> V2Spelling(OperatorOf(word).value) == SPELLINGS[word]
  {
  }

  lemma AssignmentIsSpelled(text: string)
    requires text in {"=IDIV=", "=IMOD=", "=AND=", "=XOR=", "=OR="}
    ensures CompoundOperator(text).Some? && text in ASSIGNMENTS
    ensures V2Assignment(CompoundOperator(text).value) == ASSIGNMENTS[text]
  {
    assert "=IDIV="[1..5] == "IDIV" && "=IMOD="[1..5] == "IMOD" && "=AND="[1..4] == "AND"
        && "=XOR="[1..4] == "XOR" && "=OR="[1..3] == "OR";
    assert "=" + "div" + "=" == "=div=" && "=" + "mod" + "=" == "=mod=" && "=" + "xor" + "=" == "=xor=";
  }

  lemma EmitIs(ls: seq<Lexeme>, k: nat)
    requires k < |ls| && forall i :: 0 <= i < |ls| ==> WellCut(ls[i])
    ensures Emit(ls[k], ContextAt(ls, k)) == WrittenAs(ls, k)
  {
    match ls[k].kind
    case Ampersand => CanEndIff(ls, k);
    case Word => WordIsSpelled(ls[k].text);
    case Compound => AssignmentIsSpelled(ls[k].text);
    case _ =>
  }

  /** The texts of the lexemes from `k` on, one after the other. */
  ghost function AllWritten(ls: seq<Lexeme>, k: nat): string
    requires k <= |ls|
    decreases |ls| - k
  {
    if k == |ls| then "" else WrittenAs(ls, k) + AllWritten(ls, k + 1)
  }

  lemma {:induction false} RenderIs(ls: seq<Lexeme>, k: nat)
    requires k <= |ls| && forall i :: 0 <= i < |ls| ==> WellCut(ls[i])
    ensures Render(ls[k..], ContextAt(ls, k)) == AllWritten(ls, k)
    decreases |ls| - k
  {
    if k < |ls| {
      assert ls[k..][0] == ls[k] && ls[k..][1..] == ls[k + 1..];
      EmitIs(ls, k);
      ContextStep(ls, k);
      RenderIs(ls, k + 1);
    }
  }

  /** The migrated text is each lexeme written by its position: an ampersand stays behind an
      operand and becomes a percent sign elsewhere, operators get their V2 spelling, and all
      else is copied. */
  lemma MigrationIsByPosition(source: string)
    requires Split(source).Ok?
    ensures Text(Split(source).value) == source
    ensures Migrate(source) == Ok(AllWritten(Split(source).value, 0))
  {
    var ls := Split(source).value;
    SplitLosesNothing(source);
    SplitWellCut(source);
    RenderIs(ls, 0);
    assert ls[0..] == ls && ls[..0] == [];
  }

  // ----- reruns by position

  lemma {:induction false} AndsIff(ls: seq<Lexeme>, k: nat)
    requires k <= |ls| && forall i :: 0 <= i < |ls| ==> WellCut(ls[i])
    ensures AndsFollowOperands(ls[k..], ContextAt(ls, k))
      <==> forall i :: k <= i < |ls| && IsAnd(ls[i]) ==> AfterOperand(ls, i)
    decreases |ls| - k
  {
    if k < |ls| {
      assert ls[k..][0] == ls[k] && ls[k..][1..] == ls[k + 1..];
      ContextStep(ls, k);
      CanEndIff(ls, k);
      AndsIff(ls, k + 1);
    }
  }

  /** A rerun changes nothing exactly when the last lexeme that matters before each `AND` and
      `=AND=` ends an operand. */
  lemma RerunIsSafeByPosition(source: string)
    requires Migrate(source).Ok?
    ensures var ls := Split(source).value;
      Migrate(Migrate(source).value) == Migrate(source)
      <==> forall i :: 0 <= i < |ls| && (ls[i] == Lexeme(Word, "AND") || ls[i] == Lexeme(Compound, "=AND=")) ==>
             AfterOperand(ls, i)
  {
    var ls := Split(source).value;
    SplitWellCut(source);
    AndsIff(ls, 0);
    assert ls[0..] == ls && ls[..0] == [];
    RerunIsSafeIff(source);
  }

  // ----- failures

  lemma {:induction false} NoBlockEnd(s: string, i: nat)
    requires BlockEnd(s, i).None?
    ensures forall j :: i <= j < |s| - 1 ==> !(s[j] == '*' && s[j + 1] == '/')
    decreases |s| - i
  {
    if i + 2 <= |s| {
      NoBlockEnd(s, i + 1);
    }
  }

  /** A comment without an end starts here, or a quote. */
  ghost predicate IsOpenAt(source: string, offset: nat, problem: Problem) {
    && offset < |source|
    && match problem
       case UnterminatedString => IsQuote(source[offset])
       case UnterminatedComment =>
         && offset + 1 < |source| && source[offset] == '/' && source[offset + 1] == '*'
         && forall j {:trigger source[j]} :: offset + 2 <= j < |source| - 1 ==>
              !(source[j] == '*' && source[j + 1] == '/')
  }

  lemma OpenBehind(source: string, n: nat, offset: nat, problem: Problem)
    requires n <= |source| && IsOpenAt(source[n..], offset, problem)
    ensures IsOpenAt(source, n + offset, problem)
  {
    var rest := source[n..];
    forall j | problem == UnterminatedComment && n + offset + 2 <= j < |source| - 1
      ensures !(source[j] == '*' && source[j + 1] == '/')
    {
      assert rest[j - n] == source[j] && rest[j - n + 1] == source[j + 1];
    }
  }

  /** A failure names where an open token starts. */
  lemma {:induction false} FailureIsOpenToken(source: string)
    requires Split(source).Err?
    ensures IsOpenAt(source, Split(source).error.offset, Split(source).error.problem)
    decreases |source|
  {
    match Lex(source)
    case Err(p) =>
      if p == UnterminatedComment {
        NoBlockEnd(source, 2);
      }
    case Ok(l) =>
      var f := Split(source[|l.text|..]).error;
      FailureIsOpenToken(source[|l.text|..]);
      OpenBehind(source, |l.text|, f.offset, f.problem);
  }
}
