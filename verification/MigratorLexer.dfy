/** The V1 to V2 migrator: how it cuts a source text into lexemes, the context it keeps,
    and what it writes for each lexeme. A byte is a `char`; nothing depends on its bound. */
module MigratorLexer {
  import opened Common

  // ----- characters

  predicate IsIdentifierStart(c: char) {
    c == '_' || 'A' <= c <= 'Z' || 'a' <= c <= 'z'
  }

  predicate IsIdentifierContinue(c: char) {
    IsIdentifierStart(c) || '0' <= c <= '9'
  }

  predicate IsNewline(c: char) {
    c == '\r' || c == '\n'
  }

  predicate IsQuote(c: char) {
    c == '\'' || c == '"'
  }

  // ----- lexemes

  datatype Kind = LineComment | BlockComment | Quoted | Compound | NotEqual | Ampersand | Word | Plain

  datatype Lexeme = Lexeme(kind: Kind, text: string)

  datatype Problem = UnterminatedComment | UnterminatedString

  /** A MigrationError: what is wrong, and the offset where the open token starts. */
  datatype Failure = Failure(problem: Problem, offset: nat)

  /** The end of a line comment, searched from `i`. */
  function LineEnd(s: string, i: nat): (e: nat)
    requires i <= |s|
    ensures i <= e <= |s|
    decreases |s| - i
  {
    if i < |s| && !IsNewline(s[i]) then LineEnd(s, i + 1) else i
  }

  /** The end of a block comment, if it is closed. */
  function BlockEnd(s: string, i: nat): (e: Option<nat>)
    ensures e.Some? ==> i + 2 <= e.value <= |s|
    decreases |s| - i
  {
    if i + 2 > |s| then None
    else if s[i] == '*' && s[i + 1] == '/' then Some(i + 2)
    else BlockEnd(s, i + 1)
  }

  /** The end of a quoted string that is open at `i`, if it is closed on its line. */
  function QuotedEnd(s: string, i: nat, quote: char): (e: Option<nat>)
    ensures e.Some? ==> i < e.value <= |s|
    decreases |s| - i
  {
    if i >= |s| || IsNewline(s[i]) then None
    else if s[i] == '\\' then
      if i + 1 >= |s| || IsNewline(s[i + 1]) then None else QuotedEnd(s, i + 2, quote)
    else if s[i] == quote then Some(i + 1)
    else QuotedEnd(s, i + 1, quote)
  }

  function WordEnd(s: string, i: nat): (e: nat)
    requires i <= |s|
    ensures i <= e <= |s|
    decreases |s| - i
  {
    if i < |s| && IsIdentifierContinue(s[i]) then WordEnd(s, i + 1) else i
  }

  /** The compound assignment operator that `s` starts with, or "" when there is none. */
  function CompoundAt(s: string): (op: string)
    ensures op <= s
  {
    if "=IDIV=" <= s then "=IDIV="
    else if "=IMOD=" <= s then "=IMOD="
    else if "=AND=" <= s then "=AND="
    else if "=XOR=" <= s then "=XOR="
    else if "=OR=" <= s then "=OR="
    else ""
  }

  /** The lexeme that `s` starts with. */
  function Lex(s: string): (r: Result<Lexeme, Problem>)
    requires s != ""
    ensures r.Ok? ==> r.value.text != "" && r.value.text <= s
  {
    if "//" <= s then Ok(Lexeme(LineComment, s[..LineEnd(s, 2)]))
    else if "/*" <= s then
      var e := BlockEnd(s, 2);
      if e.None? then Err(UnterminatedComment) else Ok(Lexeme(BlockComment, s[..e.value]))
    else if IsQuote(s[0]) then
      var e := QuotedEnd(s, 1, s[0]);
      if e.None? then Err(UnterminatedString) else Ok(Lexeme(Quoted, s[..e.value]))
    else if CompoundAt(s) != "" then Ok(Lexeme(Compound, CompoundAt(s)))
    else if "!=" <= s then Ok(Lexeme(NotEqual, "!="))
    else if s[0] == '&' then Ok(Lexeme(Ampersand, "&"))
    else if IsIdentifierStart(s[0]) then Ok(Lexeme(Word, s[..WordEnd(s, 1)]))
    else Ok(Lexeme(Plain, s[..1]))
  }

  /** `l` in front of an already cut text. */
  function Prepend(l: Lexeme, rest: Result<seq<Lexeme>, Failure>): Result<seq<Lexeme>, Failure> {
    match rest
    case Ok(ls) => Ok([l] + ls)
    case Err(f) => Err(f.(offset := f.offset + |l.text|))
  }

  /** All lexemes of a text, or where the first unterminated token starts. */
  function Split(s: string): Result<seq<Lexeme>, Failure>
    decreases |s|
  {
    if s == "" then Ok([])
    else
      match Lex(s)
      case Err(p) => Err(Failure(p, 0))
      case Ok(l) => Prepend(l, Split(s[|l.text|..]))
  }

  // ----- context

  /** What the scanner remembers: can the text so far end an expression, and how many
      brackets are open. */
  datatype Context = Context(canEnd: bool, nesting: nat)

  const START := Context(false, 0)

  predicate HasNewline(s: string) {
    exists i :: 0 <= i < |s| && IsNewline(s[i])
  }

  const NON_TERMINATING_WORDS: seq<string> := [
    "and", "or", "not", "is", "as", "xor", "div", "rem", "mod",
    "if", "elif", "while", "for", "step", "return", "raise",
    "delete", "new", "var", "const"]

  /** `word` is in the list from index `k` on. */
  predicate IsListed(word: string, list: seq<string>, k: nat)
    decreases |list| - k
  {
    k < |list| && (list[k] == word || IsListed(word, list, k + 1))
  }

  predicate EndsNoExpression(word: string) {
    IsListed(word, NON_TERMINATING_WORDS, 0)
  }

  function AfterPlain(c: char, ctx: Context): Context {
    if IsNewline(c) then (if ctx.nesting == 0 then ctx.(canEnd := false) else ctx)
    else if c == ' ' || c == '\t' then ctx
    else
      Context('0' <= c <= '9' || c == ')' || c == ']' || c == '}' || c == '^',
              if c == '(' || c == '[' then ctx.nesting + 1
              else if (c == ')' || c == ']') && ctx.nesting > 0 then ctx.nesting - 1
              else ctx.nesting)
  }

  function After(l: Lexeme, ctx: Context): Context {
    match l.kind
    case LineComment => ctx
    case BlockComment => if ctx.nesting == 0 && HasNewline(l.text) then ctx.(canEnd := false) else ctx
    case Quoted => ctx.(canEnd := true)
    case Word => ctx.(canEnd := OperatorOf(l.text).None? && !EndsNoExpression(l.text))
    case Plain => if l.text == "" then ctx else AfterPlain(l.text[0], ctx)
    case _ => ctx.(canEnd := false)
  }

  function AfterAll(ls: seq<Lexeme>, ctx: Context): Context {
    if ls == [] then ctx else AfterAll(ls[1..], After(ls[0], ctx))
  }

  // ----- output

  /** The V1 operators that are spelled as words. */
  datatype Operator = And | Or | Not | Xor | IDiv | IMod | Shl | Shr

  function OperatorOf(word: string): Option<Operator> {
    if word == "AND" then Some(And)
    else if word == "OR" then Some(Or)
    else if word == "NOT" then Some(Not)
    else if word == "XOR" then Some(Xor)
    else if word == "IDIV" then Some(IDiv)
    else if word == "IMOD" then Some(IMod)
    else if word == "SHL" then Some(Shl)
    else if word == "SHR" then Some(Shr)
    else None
  }

  function V2Spelling(op: Operator): string {
    match op
    case And => "&"
    case Or => "|"
    case Not => "~"
    case Xor => "xor"
    case IDiv => "div"
    case IMod => "mod"
    case Shl => "<<"
    case Shr => ">>"
  }

  /** The V2 spelling of an assignment operator `=OP=`. */
  function V2Assignment(op: Operator): string {
    match op
    case And => "&="
    case Or => "|="
    case _ => "=" + V2Spelling(op) + "="
  }

  /** The operator inside a compound assignment. */
  function CompoundOperator(text: string): Option<Operator> {
    if |text| < 2 then None else OperatorOf(text[1..|text| - 1])
  }

  function Emit(l: Lexeme, ctx: Context): string {
    match l.kind
    case Compound => if CompoundOperator(l.text).Some? then V2Assignment(CompoundOperator(l.text).value) else l.text
    case NotEqual => "<>"
    case Ampersand => if ctx.canEnd then "&" else "%"
    case Word => if OperatorOf(l.text).Some? then V2Spelling(OperatorOf(l.text).value) else l.text
    case _ => l.text
  }

  function Render(ls: seq<Lexeme>, ctx: Context): string {
    if ls == [] then "" else Emit(ls[0], ctx) + Render(ls[1..], After(ls[0], ctx))
  }

  lemma RenderCons(l: Lexeme, ls: seq<Lexeme>, ctx: Context)
    ensures Render([l] + ls, ctx) == Emit(l, ctx) + Render(ls, After(l, ctx))
  {
    assert ([l] + ls)[1..] == ls;
  }

  lemma SplitCons(l: Lexeme, x: string)
    requires l.text != "" && Lex(l.text + x) == Ok(l)
    ensures Split(l.text + x) == Prepend(l, Split(x))
  {
    assert (l.text + x)[|l.text|..] == x;
  }

  /** The migrated text, or the failure that leaves the file as it was. */
  function Migrate(source: string): Result<string, Failure> {
    match Split(source)
    case Ok(ls) => Ok(Render(ls, START))
    case Err(f) => Err(f)
  }
}
