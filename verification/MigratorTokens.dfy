/** How the migrator cuts a text, said by position: what each token is made of, what may follow
    it, and that there is one way to cut. Only the characters themselves are mentioned. */
module MigratorTokens {
  import opened Common
  import opened MigratorLexer
  import opened MigratorRerun
  import opened MigratorTheorems

  predicate IsLetter(c: char) {
    c == '_' || 'A' <= c <= 'Z' || 'a' <= c <= 'z'
  }

  predicate IsDigit(c: char) {
    '0' <= c <= '9'
  }

  predicate EndsLine(c: char) {
    c == '\r' || c == '\n'
  }

  /** An unescaped backslash stands right before `j`. */
  predicate Escaped(t: string, j: nat)
    requires j <= |t|
  {
    j > 0 && t[j - 1] == '\\' && !Escaped(t, j - 1)
  }

  /** The string that starts with a quote at 0 ends before `e`: with the same quote, not
      escaped, the first such one, and on the same line. */
  ghost predicate IsStringTo(t: string, e: nat) {
    && 2 <= e <= |t| && (t[0] == '\'' || t[0] == '"')
    && t[e - 1] == t[0] && !Escaped(t, e - 1)
    && (forall j :: 1 <= j < e ==> !EndsLine(t[j]))
    && forall j :: 1 <= j < e - 1 && t[j] == t[0] ==> Escaped(t, j)
  }

  /** The comment that starts with a slash and a star ends before `e`, at the first star and
      slash behind them. */
  ghost predicate IsCommentTo(t: string, e: nat) {
    && 4 <= e <= |t| && t[0] == '/' && t[1] == '*' && t[e - 2] == '*' && t[e - 1] == '/'
    && forall j, k :: 2 <= j < e - 2 && k == j + 1 ==> t[j] != '*' || t[k] != '/'
  }

  const ASSIGNMENTS: set<string> := {"=IDIV=", "=IMOD=", "=AND=", "=XOR=", "=OR="}

  /** What the token consists of. */
  ghost predicate IsToken(l: Lexeme) {
    var t := l.text;
    match l.kind
    case LineComment => |t| >= 2 && t[0] == t[1] == '/' && forall j :: 2 <= j < |t| ==> !EndsLine(t[j])
    case BlockComment => IsCommentTo(t, |t|)
    case Quoted => IsStringTo(t, |t|)
    case Compound => t in ASSIGNMENTS
    case NotEqual => t == "!="
    case Ampersand => t == "&"
    case Word => t != "" && IsLetter(t[0]) && forall j :: 0 <= j < |t| ==> IsLetter(t[j]) || IsDigit(t[j])
    case Plain => |t| == 1 && t[0] != '\'' && t[0] != '"' && t[0] != '&' && !IsLetter(t[0])
  }

  /** The token goes as far as it can: what follows it does not belong to it. */
  ghost predicate IsWhole(l: Lexeme, rest: string) {
    match l.kind
    case LineComment => rest != "" ==> EndsLine(rest[0])
    case Word => rest != "" ==> !IsLetter(rest[0]) && !IsDigit(rest[0])
    case Plain =>
      && (l.text == "/" && rest != "" ==> rest[0] != '/' && rest[0] != '*')
      && (l.text == "!" && rest != "" ==> rest[0] != '=')
      && (l.text == "=" ==> forall op :: op in ASSIGNMENTS ==> !(op <= "=" + rest))
    case _ => true
  }

  /** The token at `i`, in front of the others and `rest`. */
  ghost predicate TokenAt(ls: seq<Lexeme>, i: nat, rest: string)
    requires i < |ls|
  {
    IsToken(ls[i]) && IsWhole(ls[i], Text(ls[i + 1..]) + rest)
  }

  /** The tokens stand in front of `rest`, each as long as it can be. */
  ghost predicate AreTokens(ls: seq<Lexeme>, rest: string) {
    forall i: nat :: i < |ls| ==> TokenAt(ls, i, rest)
  }

  // ----- each kind of token

  lemma {:induction false} LineEndIff(t: string, i: nat)
    requires i <= |t|
    ensures LineEnd(t, i) == |t| <==> forall j :: i <= j < |t| ==> !EndsLine(t[j])
    decreases |t| - i
  {
    if i < |t| && !IsNewline(t[i]) {
      LineEndIff(t, i + 1);
    }
  }

  lemma {:induction false} BlockEndIff(t: string, i: nat, e: nat)
    requires 2 <= i
    ensures BlockEnd(t, i) == Some(e) <==>
      && i + 2 <= e <= |t| && t[e - 2] == '*' && t[e - 1] == '/'
      && forall j, k :: i <= j < e - 2 && k == j + 1 ==> t[j] != '*' || t[k] != '/'
    decreases |t| - i
  {
    if i + 2 <= |t| && !(t[i] == '*' && t[i + 1] == '/') {
      BlockEndIff(t, i + 1, e);
    }
  }

  lemma {:induction false} QuotedEndIff(t: string, i: nat, q: char, e: nat)
    requires 1 <= i <= |t| && !Escaped(t, i) && q != '\\' && !EndsLine(q)
    ensures QuotedEnd(t, i, q) == Some(e) <==>
      && i < e <= |t| && t[e - 1] == q && !Escaped(t, e - 1)
      && (forall j :: i <= j < e ==> !EndsLine(t[j]))
      && forall j :: i <= j < e - 1 && t[j] == q ==> Escaped(t, j)
    decreases |t| - i
  {
    if i < |t| && !IsNewline(t[i]) {
      if t[i] == '\\' {
        if i + 1 < |t| && !IsNewline(t[i + 1]) {
          assert Escaped(t, i + 1) && !Escaped(t, i + 2);
          QuotedEndIff(t, i + 2, q, e);
        }
      } else if t[i] != q {
        QuotedEndIff(t, i + 1, q, e);
      }
    }
  }

  lemma StringIff(t: string, e: nat)
    requires t != "" && IsQuote(t[0])
    ensures QuotedEnd(t, 1, t[0]) == Some(e) <==> IsStringTo(t, e)
  {
    assert !Escaped(t, 0);
    QuotedEndIff(t, 1, t[0], e);
  }

  lemma TokenIff(l: Lexeme)
    ensures WellCut(l) <==> IsToken(l)
  {
    var t := l.text;
    match l.kind
    case LineComment =>
      if |t| >= 2 {
        LineEndIff(t, 2);
      }
    case BlockComment => BlockEndIff(t, 2, |t|);
    case Quoted =>
      if t != "" && IsQuote(t[0]) {
        StringIff(t, |t|);
      }
    case _ =>
  }

  lemma CompoundIff(s: string)
    ensures CompoundAt(s) == "" <==> forall op :: op in ASSIGNMENTS ==> !(op <= s)
  {
  }

  lemma WholeIff(l: Lexeme, rest: string)
    ensures Follows(l, rest) <==> IsWhole(l, rest)
  {
    CompoundIff("=" + rest);
  }

  lemma TokenBehind(l: Lexeme, tail: seq<Lexeme>, i: nat, rest: string)
    requires i < |tail|
    ensures TokenAt([l] + tail, i + 1, rest) <==> TokenAt(tail, i, rest)
  {
    assert ([l] + tail)[i + 1 + 1..] == tail[i + 1..];
  }

  lemma {:induction false} ChainIff(ls: seq<Lexeme>, rest: string)
    ensures Chain(ls, rest) <==> AreTokens(ls, rest)
    decreases |ls|
  {
    if ls != [] {
      var tail := ls[1..];
      assert ls == [ls[0]] + tail;
      TokenIff(ls[0]);
      WholeIff(ls[0], Text(tail) + rest);
      ChainIff(tail, rest);
      assert TokenAt(ls, 0, rest) <==> WellCut(ls[0]) && Follows(ls[0], Text(tail) + rest);
      forall i: nat | i < |tail| ensures TokenAt(ls, i + 1, rest) <==> TokenAt(tail, i, rest) {
        TokenBehind(ls[0], tail, i, rest);
      }
      if AreTokens(tail, rest) && TokenAt(ls, 0, rest) {
        forall k: nat | k < |ls| ensures TokenAt(ls, k, rest) {
          assert k == 0 || TokenAt(tail, k - 1, rest);
        }
      }
    }
  }

  // ----- whole texts

  lemma {:induction false} SplitIsChain(source: string)
    requires Split(source).Ok?
    ensures Chain(Split(source).value, "")
    decreases |source|
  {
    if source != "" {
      var l := Lex(source).value;
      var rest := source[|l.text|..];
      LexCuts(source);
      SplitIsChain(rest);
      SplitLosesNothing(rest);
      assert Split(source).value[1..] == Split(rest).value && rest + "" == rest;
    }
  }

  /** The lexemes of a text are its tokens: a text is cut into `ls` exactly when `ls` are
      tokens, each as long as it can be, that make up the text. */
  lemma SplitIff(source: string, ls: seq<Lexeme>)
    ensures Split(source) == Ok(ls) <==> Text(ls) == source && AreTokens(ls, "")
  {
    ChainIff(ls, "");
    if Split(source) == Ok(ls) {
      SplitIsChain(source);
      SplitLosesNothing(source);
    }
    if Chain(ls, "") && Text(ls) == source {
      SplitChain(ls, "", []);
      assert Text(ls) + "" == source && ls + [] == ls;
    }
  }

  /** A comment or a string starts here and has no end. */
  ghost predicate IsOpen(t: string, problem: Problem) {
    match problem
    case UnterminatedComment =>
      |t| >= 2 && t[0] == '/' && t[1] == '*' && forall e: nat :: !IsCommentTo(t, e)
    case UnterminatedString =>
      t != "" && (t[0] == '\'' || t[0] == '"') && forall e: nat :: !IsStringTo(t, e)
  }

  lemma OpenIff(t: string, problem: Problem)
    requires t != ""
    ensures Lex(t) == Err(problem) <==> IsOpen(t, problem)
  {
    if "/*" <= t {
      forall e: nat ensures BlockEnd(t, 2) == Some(e) <==> IsCommentTo(t, e) {
        BlockEndIff(t, 2, e);
      }
    } else if IsQuote(t[0]) {
      forall e: nat ensures QuotedEnd(t, 1, t[0]) == Some(e) <==> IsStringTo(t, e) {
        StringIff(t, e);
      }
    }
  }

  /** The tokens in front of `n`, where something is open. */
  ghost predicate FailsAt(source: string, problem: Problem, n: nat, ls: seq<Lexeme>) {
    n < |source| && Text(ls) == source[..n] && AreTokens(ls, source[n..]) && IsOpen(source[n..], problem)
  }

  lemma SplitBehind(l: Lexeme, x: string)
    requires WellCut(l) && Follows(l, x)
    ensures Split(l.text + x) == Prepend(l, Split(x))
  {
    LexTakes(l, x);
    SplitCons(l, x);
  }

  lemma {:induction false} OpenIsReported(ls: seq<Lexeme>, rest: string, problem: Problem)
    requires Chain(ls, rest) && rest != "" && Lex(rest) == Err(problem)
    ensures Split(Text(ls) + rest) == Err(Failure(problem, |Text(ls)|))
    decreases |ls|
  {
    if ls == [] {
      assert Text(ls) + rest == rest;
    } else {
      OpenIsReported(ls[1..], rest, problem);
      ConcatAssociative(ls[0].text, Text(ls[1..]), rest);
      SplitBehind(ls[0], Text(ls[1..]) + rest);
    }
  }

  ghost predicate Reported(source: string, f: Failure, ls: seq<Lexeme>) {
    && f.offset < |source| && Text(ls) == source[..f.offset] && Chain(ls, source[f.offset..])
    && Lex(source[f.offset..]) == Err(f.problem)
  }

  lemma ReportedBehind(l: Lexeme, x: string, f: Failure, ls: seq<Lexeme>)
    requires WellCut(l) && Follows(l, x) && Reported(x, f, ls)
    ensures Reported(l.text + x, f.(offset := |l.text| + f.offset), [l] + ls)
  {
    var source, n, more := l.text + x, |l.text| + f.offset, [l] + ls;
    assert source[n..] == x[f.offset..] && source[..n] == l.text + x[..f.offset];
    assert more[1..] == ls && x == x[..f.offset] + x[f.offset..];
  }

  lemma {:induction false} ReportedIsOpen(source: string) returns (ls: seq<Lexeme>)
    requires Split(source).Err?
    ensures Reported(source, Split(source).error, ls)
    decreases |source|
  {
    if Lex(source).Err? {
      ls := [];
      assert source[0..] == source;
    } else {
      var l := Lex(source).value;
      var rest := source[|l.text|..];
      LexCuts(source);
      assert source == l.text + rest;
      var tail := ReportedIsOpen(rest);
      ReportedBehind(l, rest, Split(rest).error, tail);
      SplitBehind(l, rest);
      ls := [l] + tail;
    }
  }

  lemma OpenFails(source: string, problem: Problem, n: nat, ls: seq<Lexeme>)
    requires FailsAt(source, problem, n, ls)
    ensures Split(source) == Err(Failure(problem, n))
  {
    var rest := source[n..];
    ChainIff(ls, rest);
    OpenIff(rest, problem);
    OpenIsReported(ls, rest, problem);
    assert source == Text(ls) + rest && |Text(ls)| == n;
  }

  lemma FailureIsOpen(source: string, problem: Problem, n: nat) returns (ls: seq<Lexeme>)
    requires Split(source) == Err(Failure(problem, n))
    ensures FailsAt(source, problem, n, ls)
  {
    ls := ReportedIsOpen(source);
    ChainIff(ls, source[n..]);
    OpenIff(source[n..], problem);
  }

  /** Cutting fails exactly when tokens lead up to a comment or string without an end, and the
      failure names it and where it starts. */
  lemma FailsIff(source: string, problem: Problem, n: nat)
    ensures Split(source) == Err(Failure(problem, n)) <==> exists ls :: FailsAt(source, problem, n, ls)
  {
    if Split(source) == Err(Failure(problem, n)) {
      var ls := FailureIsOpen(source, problem, n);
    }
    if exists ls :: FailsAt(source, problem, n, ls) {
      var ls :| FailsAt(source, problem, n, ls);
      OpenFails(source, problem, n, ls);
    }
  }
}
