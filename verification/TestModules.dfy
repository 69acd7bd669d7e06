/** Test modules as Rust writes them, and the proof that the skipper removes exactly them
    (xtask/src/verbs.rs). What a stretch of text is, is said by relations between the text, an offset
    and a syntax tree. */
module TestModules {
  import opened Wrappers
  import opened RustLexer

  // ---- Syntax ----

  /** The six whitespace characters of ASCII. */
  predicate White(c: char) {
    c in {' ', '\t', '\n', '\U{000B}', '\U{000C}', '\r'}
  }

  /** What an identifier is made of. */
  predicate IdentChar(c: char) {
    c == '_' || '0' <= c <= '9' || 'A' <= c <= 'Z' || 'a' <= c <= 'z'
  }

  /** The scanner's character classes are these. */
  lemma Classes()
    ensures forall c :: IsSpace(c) <==> White(c)
    ensures forall c :: IsWord(c) <==> IdentChar(c)
  {
  }

  datatype Unit = Bare(c: char) | Escaped(c: char)

  /** Character literals end at a newline at the latest, strings do not. */
  datatype Delimiter = Single | Double {
    function Char(): char {
      if Single? then '\'' else '"'
    }
  }

  function UnitsLen(us: seq<Unit>): nat {
    if us == [] then 0 else (if us[0].Bare? then 1 else 2) + UnitsLen(us[1..])
  }

  /** From i the text is the units and then the closing quote. */
  predicate ReadsUnits(s: string, i: nat, us: seq<Unit>, quote: char, oneLine: bool)
    decreases |us|
  {
    if us == [] then At(s, i, quote)
    else
      match us[0]
      case Bare(c) =>
        At(s, i, c) && c != quote && c != '\\' && !(oneLine && c == '\n') && ReadsUnits(s, i + 1, us[1..], quote, oneLine)
      case Escaped(c) => At(s, i, '\\') && At(s, i + 1, c) && ReadsUnits(s, i + 2, us[1..], quote, oneLine)
  }

  /** A block comment in which no star-slash comes before its last two characters. */
  predicate IsBlockText(t: string) {
    && |t| >= 4 && t[0] == '/' && t[1] == '*' && t[|t| - 2] == '*' && t[|t| - 1] == '/'
    && forall k :: 0 <= k < |t| - 2 ==> !(t[k] == '*' && t[k + 1] == '/')
  }

  /** An r, h hashes and a quote. */
  predicate OpensRaw(s: string, j: nat, h: nat) {
    At(s, j, 'r') && At(s, j + 1 + h, '"') && forall m :: j + 1 <= m < j + 1 + h ==> s[m] == '#'
  }

  ghost predicate StartsRaw(s: string, j: nat) {
    exists h: nat :: OpensRaw(s, j, h)
  }

  /** A quote and h hashes. */
  function Ending(h: nat): string {
    ['"'] + seq(h, i => '#')
  }

  /** No quote or brace (so there are no lifetimes), and the start of neither a comment nor a raw string. */
  ghost predicate ReadsPlain(s: string, j: nat, c: char) {
    && At(s, j, c) && c != '"' && c != '\'' && c != '{' && c != '}'
    && !(c == '/' && (At(s, j + 1, '/') || At(s, j + 1, '*')))
    && !StartsRaw(s, j)
  }

  predicate ReadsQuoted(s: string, j: nat, d: Delimiter, us: seq<Unit>) {
    At(s, j, d.Char()) && ReadsUnits(s, j + 1, us, d.Char(), d.Single?)
  }

  predicate ReadsRawString(s: string, j: nat, h: nat, raw: string) {
    && At(s, j, 'r') && Has(s, j + 1, seq(h, i => '#')) && At(s, j + 1 + h, '"')
    && Has(s, j + 2 + h, raw + Ending(h)) && forall k: nat :: k < |raw| ==> !Has(raw + Ending(h), k, Ending(h))
  }

  predicate ReadsLine(s: string, j: nat, line: string) {
    At(s, j, '/') && At(s, j + 1, '/') && Has(s, j + 2, line) && '\n' !in line && At(s, j + 2 + |line|, '\n')
  }

  // A token is a stretch of text from j to e that Rust reads as one of:

  ghost predicate IsPlain(s: string, j: nat, e: nat) {
    exists c :: ReadsPlain(s, j, c) && e == j + 1
  }

  /** "..." (also the rest of b"...") or a character literal. */
  ghost predicate IsQuoted(s: string, j: nat, e: nat) {
    exists d, us :: ReadsQuoted(s, j, d, us) && e == j + UnitsLen(us) + 2
  }

  /** r"...", r#"..."#, and so on. */
  ghost predicate IsRawString(s: string, j: nat, e: nat) {
    exists h: nat, raw :: ReadsRawString(s, j, h, raw) && e == j + 2 * h + |raw| + 3
  }

  /** With its newline. */
  ghost predicate IsLineComment(s: string, j: nat, e: nat) {
    exists line :: ReadsLine(s, j, line) && e == j + |line| + 3
  }

  ghost predicate IsBlockComment(s: string, j: nat, e: nat) {
    exists t :: IsBlockText(t) && Has(s, j, t) && e == j + |t|
  }

  ghost function Tokens(s: string): iset<(nat, nat)> {
    iset p: (nat, nat) |
      || IsPlain(s, p.0, p.1) || IsQuoted(s, p.0, p.1) || IsRawString(s, p.0, p.1)
      || IsLineComment(s, p.0, p.1) || IsBlockComment(s, p.0, p.1)
  }

  ghost predicate IsSpaceChar(s: string, j: nat, e: nat) {
    j < |s| && White(s[j]) && e == j + 1
  }

  /** Whitespace and comments. */
  ghost function Blanks(s: string): iset<(nat, nat)> {
    iset p: (nat, nat) | IsSpaceChar(s, p.0, p.1) || IsLineComment(s, p.0, p.1) || IsBlockComment(s, p.0, p.1)
  }

  /** A body: tokens and brace groups, in order. */
  datatype Body = Done | Leaf(len: nat, rest: Body) | Group(inner: Body, rest: Body)

  function BodyLen(b: Body): nat {
    match b
    case Done => 0
    case Leaf(n, rest) => n + BodyLen(rest)
    case Group(inner, rest) => 1 + BodyLen(inner) + 1 + BodyLen(rest)
  }

  ghost predicate ReadsBody(s: string, leaves: iset<(nat, nat)>, j: nat, b: Body)
    decreases b
  {
    match b
    case Done => j <= |s|
    case Leaf(n, rest) => (j, j + n) in leaves && ReadsBody(s, leaves, j + n, rest)
    case Group(inner, rest) =>
      && At(s, j, '{') && ReadsBody(s, leaves, j + 1, inner) && At(s, j + 1 + BodyLen(inner), '}')
      && ReadsBody(s, leaves, j + 1 + BodyLen(inner) + 1, rest)
  }

  ghost function Bodies(s: string, leaves: iset<(nat, nat)>, j: nat): iset<Body> {
    iset b | ReadsBody(s, leaves, j, b)
  }

  /** Consecutive stretches: cuts[0] to cuts[1], cuts[1] to cuts[2] and so on. */
  ghost predicate ReadsRun(leaves: iset<(nat, nat)>, cuts: seq<nat>) {
    cuts != [] && forall k :: 0 <= k < |cuts| - 1 ==> (cuts[k], cuts[k + 1]) in leaves
  }

  ghost function Runs(leaves: iset<(nat, nat)>): iset<seq<nat>> {
    iset cuts | ReadsRun(leaves, cuts)
  }

  /** `blanks` are the cuts of the whitespace and comments before `mod`. */
  datatype TestModule = TestModule(blanks: seq<nat>, gap1: string, name: string, gap2: string, body: Body)

  function HeadStart(m: TestModule): nat
    requires m.blanks != []
  {
    m.blanks[|m.blanks| - 1]
  }

  function HeadLen(m: TestModule): nat {
    3 + |m.gap1| + |m.name| + |m.gap2| + 1
  }

  function ModuleLen(m: TestModule): nat
    requires m.blanks != []
  {
    HeadStart(m) + HeadLen(m) + BodyLen(m.body) + 1
  }

  predicate ReadsHead(s: string, i: nat, m: TestModule) {
    && At(s, i, 'm') && At(s, i + 1, 'o') && At(s, i + 2, 'd')
    && m.gap1 != [] && Has(s, i + 3, m.gap1) && (forall k :: 0 <= k < |m.gap1| ==> White(m.gap1[k]))
    && m.name != [] && Has(s, i + 3 + |m.gap1|, m.name) && (forall k :: 0 <= k < |m.name| ==> IdentChar(m.name[k]))
    && Has(s, i + 3 + |m.gap1| + |m.name|, m.gap2) && (forall k :: 0 <= k < |m.gap2| ==> White(m.gap2[k]))
    && At(s, i + 3 + |m.gap1| + |m.name| + |m.gap2|, '{')
  }

  ghost function Heads(s: string, i: nat): iset<TestModule> {
    iset m | ReadsHead(s, i, m)
  }

  /** The text starts with blanks, `mod name {`, a body and its closing brace; anything may follow. */
  ghost predicate ReadsModule(s: string, blanks: iset<(nat, nat)>, leaves: iset<(nat, nat)>, m: TestModule) {
    && m.blanks != [] && m.blanks[0] == 0 && m.blanks in Runs(blanks)
    && m in Heads(s, HeadStart(m))
    && m.body in Bodies(s, leaves, HeadStart(m) + HeadLen(m))
    && At(s, HeadStart(m) + HeadLen(m) + BodyLen(m.body), '}')
  }

  /** The modules a text starts with, made of these blanks and leaves. */
  ghost function ModulesOf(s: string, blanks: iset<(nat, nat)>, leaves: iset<(nat, nat)>): iset<TestModule> {
    iset m | ReadsModule(s, blanks, leaves, m)
  }

  /** The test modules a text starts with. */
  ghost function Modules(s: string): iset<TestModule> {
    ModulesOf(s, Blanks(s), Tokens(s))
  }

  // ---- Finding things inside a longer text ----

  lemma SpanThrough(s: string, i: nat, n: nat, p: char -> bool)
    requires i + n <= |s| && (forall k :: i <= k < i + n ==> p(s[k])) && (i + n == |s| || !p(s[i + n]))
    ensures Span(s, i, p) == i + n
  {
    SpanExact(s, i, i + n, p);
  }

  lemma SpanText(s: string, i: nat, text: string, p: char -> bool)
    requires Has(s, i, text) && (forall k :: 0 <= k < |text| ==> p(text[k]))
    requires i + |text| == |s| || !p(s[i + |text|])
    ensures Span(s, i, p) == i + |text|
  {
    forall k | i <= k < i + |text| ensures p(s[k]) {
      assert s[i + (k - i)] == text[k - i];
    }
    SpanThrough(s, i, |text|, p);
  }

  /** An occurrence in a piece of text is an occurrence in the whole, and conversely inside the piece. */
  lemma HasInside(s: string, i: nat, text: string, k: nat, pat: string)
    requires Has(s, i, text) && k + |pat| <= |text|
    ensures Has(text, k, pat) <==> Has(s, i + k, pat)
  {
    if Has(text, k, pat) {
      forall m | 0 <= m < |pat| ensures s[i + k + m] == pat[m] {
        assert s[i + (k + m)] == text[k + m];
      }
    }
    if Has(s, i + k, pat) {
      forall m | 0 <= m < |pat| ensures text[k + m] == pat[m] {
        assert s[i + (k + m)] == text[k + m];
      }
    }
  }

  lemma {:induction false} FindNone(s: string, i: nat, pat: string)
    requires i <= |s|
    ensures Find(s, i, pat) == None <==> forall k :: i <= k <= |s| ==> !Has(s, k, pat)
    decreases |s| - i
  {
    if !Has(s, i, pat) && i < |s| {
      FindNone(s, i + 1, pat);
    }
  }

  lemma {:induction false} FindIsFirst(s: string, i: nat, pat: string)
    requires i <= |s| && Find(s, i, pat).Some?
    ensures forall k :: i <= k < Find(s, i, pat).value ==> !Has(s, k, pat)
    decreases |s| - i
  {
    if !Has(s, i, pat) {
      FindIsFirst(s, i + 1, pat);
    }
  }

  lemma {:induction false} FindExactly(s: string, i: nat, pat: string, at: nat)
    requires i <= at && Has(s, at, pat) && forall k :: i <= k < at ==> !Has(s, k, pat)
    ensures Find(s, i, pat) == Some(at)
    decreases at - i
  {
    if i < at {
      FindExactly(s, i + 1, pat, at);
    }
  }

  /** What is found inside a piece of text is found at the same place in the whole. */
  lemma FindInside(s: string, i: nat, text: string, pat: string, at: nat)
    requires Has(s, i, text) && Find(text, 0, pat) == Some(at)
    ensures Find(s, i, pat) == Some(i + at)
  {
    FindIsFirst(text, 0, pat);
    HasInside(s, i, text, at, pat);
    forall k | i <= k < i + at ensures !Has(s, k, pat) {
      HasInside(s, i, text, k - i, pat);
    }
    FindExactly(s, i, pat, i + at);
  }

  lemma CharOf(s: string, i: nat, text: string, k: nat)
    requires Has(s, i, text) && k < |text|
    ensures At(s, i + k, text[k])
  {
  }

  lemma {:induction false} QuoteCloses(s: string, i: nat, us: seq<Unit>, quote: char, oneLine: bool)
    requires ReadsUnits(s, i, us, quote, oneLine) && quote != '\\'
    ensures CloseQuote(s, i, quote, oneLine) == Some(i + UnitsLen(us) + 1)
    decreases |us|
  {
    if us == [] {
    } else {
      QuoteCloses(s, i + (if us[0].Bare? then 1 else 2), us[1..], quote, oneLine);
    }
  }

  // ---- One token at a time ----

  /** From j the matcher gets to e with as many braces open as it had, however many. */
  ghost predicate Balanced(s: string, j: nat, e: nat) {
    j <= e <= |s| && forall depth: nat :: depth > 0 ==> CloseBraces(s, j, depth) == CloseBraces(s, e, depth)
  }

  lemma Chain(s: string, i: nat, j: nat, k: nat)
    requires Balanced(s, i, j) && Balanced(s, j, k)
    ensures Balanced(s, i, k)
  {
  }

  lemma SkipMove(s: string, j: nat, e: nat)
    requires j < |s| && MoveAt(s, j) == Skip(e)
    ensures Balanced(s, j, e)
  {
  }

  lemma RawSkip(s: string, j: nat, h: nat, e: nat)
    requires At(s, j, 'r') && At(s, j + 1 + h, '"') && Span(s, j + 1, IsHash) == j + 1 + h
    requires Find(s, j + 2 + h, Closer(h)) == Some(e)
    ensures MoveAt(s, j) == Skip(e + h + 1)
  {
  }

  lemma RawHashes(s: string, j: nat, h: nat)
    requires Has(s, j, seq(h, i => '#')) && At(s, j + h, '"')
    ensures Span(s, j, IsHash) == j + h
  {
    var hs := seq(h, i => '#');
    forall k | j <= k < j + h ensures IsHash(s[k]) {
      assert s[j + (k - j)] == hs[k - j];
    }
    SpanThrough(s, j, h, IsHash);
  }

  lemma RawEnds(s: string, i: nat, raw: string, h: nat)
    requires Has(s, i, raw + Ending(h)) && forall k: nat :: k < |raw| ==> !Has(raw + Ending(h), k, Ending(h))
    ensures Find(s, i, Closer(h)) == Some(i + |raw|)
  {
    assert Ending(h) == Closer(h);
    FindExactly(raw + Ending(h), 0, Ending(h), |raw|);
    FindInside(s, i, raw + Ending(h), Ending(h), |raw|);
  }

  lemma RawStringMove(s: string, j: nat, h: nat, raw: string)
    requires ReadsRawString(s, j, h, raw)
    ensures MoveAt(s, j) == Skip(j + 2 * h + |raw| + 3)
  {
    RawEnds(s, j + 2 + h, raw, h);
    RawHashes(s, j + 1, h);
    RawSkip(s, j, h, j + 2 + h + |raw|);
  }

  lemma QuotedMove(s: string, j: nat, d: Delimiter, us: seq<Unit>)
    requires ReadsQuoted(s, j, d, us)
    ensures MoveAt(s, j) == Skip(j + UnitsLen(us) + 2)
  {
    QuoteCloses(s, j + 1, us, d.Char(), d.Single?);
  }

  lemma LineCommentThrough(s: string, j: nat, line: string)
    requires ReadsLine(s, j, line)
    ensures CommentAt(s, j) == Through(j + 2 + |line|)
  {
    SpanText(s, j + 2, line, NotNewline);
  }

  lemma StarSlashAt(s: string, k: nat)
    ensures Has(s, k, "*/") <==> At(s, k, '*') && At(s, k + 1, '/')
  {
    if Has(s, k, "*/") {
      CharOf(s, k, "*/", 0);
      CharOf(s, k, "*/", 1);
    }
  }

  lemma BlockTextFound(t: string)
    ensures IsBlockText(t) <==> |t| >= 4 && t[0] == '/' && t[1] == '*' && Find(t, 0, "*/") == Some(|t| - 2)
  {
    forall k: nat ensures Has(t, k, "*/") <==> At(t, k, '*') && At(t, k + 1, '/') {
      StarSlashAt(t, k);
    }
    if IsBlockText(t) {
      FindExactly(t, 0, "*/", |t| - 2);
    }
    if |t| >= 4 && t[0] == '/' && t[1] == '*' && Find(t, 0, "*/") == Some(|t| - 2) {
      FindIsFirst(t, 0, "*/");
      StarSlashAt(t, |t| - 2);
      forall k | 0 <= k < |t| - 2 ensures !(t[k] == '*' && t[k + 1] == '/') {
        StarSlashAt(t, k);
      }
    }
  }

  lemma BlockEndsAt(s: string, j: nat, e: nat)
    requires At(s, j, '/') && At(s, j + 1, '*') && Find(s, j, "*/") == Some(e)
    ensures CommentAt(s, j) == Through(e + 2)
  {
  }

  lemma BlockCommentThrough(s: string, j: nat, t: string)
    requires IsBlockText(t) && Has(s, j, t)
    ensures j + |t| <= |s| && At(s, j, '/') && CommentAt(s, j) == Through(j + |t|)
  {
    CharOf(s, j, t, 0);
    CharOf(s, j, t, 1);
    BlockTextFound(t);
    FindInside(s, j, t, "*/", |t| - 2);
    BlockEndsAt(s, j, j + |t| - 2);
  }

  lemma CommentMove(s: string, j: nat, e: nat)
    requires At(s, j, '/') && CommentAt(s, j) == Through(e)
    ensures MoveAt(s, j) == Skip(e)
  {
  }

  lemma LineCommentStep(s: string, j: nat, line: string)
    requires ReadsLine(s, j, line)
    ensures Balanced(s, j, j + 3 + |line|)
  {
    var e := j + 2 + |line|;
    LineCommentThrough(s, j, line);
    CommentMove(s, j, e);
    SkipMove(s, j, e);
    PlainMove(s, e, '\n');
    SkipMove(s, e, e + 1);
    Chain(s, j, e, e + 1);
  }

  /** The scanner's test for a raw string is this one. */
  lemma RawStartIff(s: string, j: nat)
    ensures IsRawStringStart(s, j) <==> StartsRaw(s, j)
  {
    if At(s, j, 'r') {
      var q := Span(s, j + 1, IsHash);
      SpanExact(s, j + 1, q, IsHash);
      if At(s, q, '"') {
        assert OpensRaw(s, j, q - j - 1);
      }
      if h: nat :| OpensRaw(s, j, h) {
        SpanExact(s, j + 1, j + 1 + h, IsHash);
      }
    }
  }

  lemma PlainMove(s: string, j: nat, c: char)
    requires ReadsPlain(s, j, c) && !(c == 'b' && At(s, j + 1, '"'))
    ensures MoveAt(s, j) == Skip(j + 1)
  {
    RawStartIff(s, j);
  }

  /** A b directly before a cooked string takes the string with it, which comes to the same. */
  lemma ByteStringStep(s: string, j: nat)
    requires At(s, j, 'b') && At(s, j + 1, '"')
    ensures Balanced(s, j, j + 1)
  {
    var end := SkipString(s, j + 1);
    assert MoveAt(s, j) == SkipOrStuck(end);
    assert MoveAt(s, j + 1) == SkipOrStuck(end);
  }

  lemma BraceMoves(s: string, j: nat)
    ensures At(s, j, '{') ==> MoveAt(s, j) == Open
    ensures At(s, j, '}') ==> MoveAt(s, j) == Close
  {
  }

  lemma PlainStep(s: string, j: nat, c: char)
    requires ReadsPlain(s, j, c)
    ensures Balanced(s, j, j + 1)
  {
    if c == 'b' && At(s, j + 1, '"') {
      ByteStringStep(s, j);
    } else {
      PlainMove(s, j, c);
      SkipMove(s, j, j + 1);
    }
  }

  lemma OpenThenClose(s: string, j: nat, e: nat)
    requires At(s, j, '{') && At(s, e, '}') && Balanced(s, j + 1, e)
    ensures Balanced(s, j, e + 1)
  {
    BraceMoves(s, j);
    BraceMoves(s, e);
    forall depth: nat | depth > 0 ensures CloseBraces(s, j, depth) == CloseBraces(s, e + 1, depth) {
      assert CloseBraces(s, j, depth) == CloseBraces(s, j + 1, depth + 1);
    }
  }

  // ---- Bodies ----

  lemma PlainBalances(s: string, j: nat, e: nat)
    requires IsPlain(s, j, e)
    ensures Balanced(s, j, e)
  {
    var c :| ReadsPlain(s, j, c) && e == j + 1;
    PlainStep(s, j, c);
  }

  lemma QuotedBalances(s: string, j: nat, e: nat)
    requires IsQuoted(s, j, e)
    ensures Balanced(s, j, e)
  {
    var d, us :| ReadsQuoted(s, j, d, us) && e == j + UnitsLen(us) + 2;
    QuotedMove(s, j, d, us);
    SkipMove(s, j, e);
  }

  lemma RawStringBalances(s: string, j: nat, e: nat)
    requires IsRawString(s, j, e)
    ensures Balanced(s, j, e)
  {
    var h: nat, raw :| ReadsRawString(s, j, h, raw) && e == j + 2 * h + |raw| + 3;
    RawStringMove(s, j, h, raw);
    SkipMove(s, j, e);
  }

  lemma LineCommentBalances(s: string, j: nat, e: nat)
    requires IsLineComment(s, j, e)
    ensures Balanced(s, j, e)
  {
    var line :| ReadsLine(s, j, line) && e == j + |line| + 3;
    LineCommentStep(s, j, line);
  }

  lemma BlockCommentBalances(s: string, j: nat, e: nat)
    requires IsBlockComment(s, j, e)
    ensures Balanced(s, j, e)
  {
    var t :| IsBlockText(t) && Has(s, j, t) && e == j + |t|;
    BlockCommentThrough(s, j, t);
    CommentMove(s, j, e);
    SkipMove(s, j, e);
  }

  lemma TokenBalances(s: string, p: (nat, nat))
    requires p in Tokens(s)
    ensures Balanced(s, p.0, p.1)
  {
    if IsPlain(s, p.0, p.1) {
      PlainBalances(s, p.0, p.1);
      return;
    }
    if IsQuoted(s, p.0, p.1) {
      QuotedBalances(s, p.0, p.1);
      return;
    }
    if IsRawString(s, p.0, p.1) {
      RawStringBalances(s, p.0, p.1);
      return;
    }
    if IsLineComment(s, p.0, p.1) {
      LineCommentBalances(s, p.0, p.1);
      return;
    }
    BlockCommentBalances(s, p.0, p.1);
  }

  /** The stretches that leave the matcher at the depth it had. */
  ghost function Balancings(s: string): iset<(nat, nat)> {
    iset p: (nat, nat) | Balanced(s, p.0, p.1)
  }

  lemma TokensBalance(s: string)
    ensures Tokens(s) <= Balancings(s)
  {
    forall p | p in Tokens(s) ensures p in Balancings(s) {
      TokenBalances(s, p);
    }
  }

  lemma NothingBalances(s: string, j: nat)
    requires j <= |s|
    ensures (j, j) in Balancings(s)
  {
  }

  lemma ChainBalances(s: string, i: nat, j: nat, k: nat)
    requires (i, j) in Balancings(s) && (j, k) in Balancings(s)
    ensures (i, k) in Balancings(s)
  {
    Chain(s, i, j, k);
  }

  lemma GroupBalances(s: string, j: nat, e: nat)
    requires At(s, j, '{') && At(s, e, '}') && (j + 1, e) in Balancings(s)
    ensures (j, e + 1) in Balancings(s)
  {
    OpenThenClose(s, j, e);
  }

  lemma BodyParts(s: string, leaves: iset<(nat, nat)>, j: nat, b: Body)
    requires b in Bodies(s, leaves, j)
    ensures
      match b
      case Done => j <= |s|
      case Leaf(n, rest) => (j, j + n) in leaves && rest in Bodies(s, leaves, j + n)
      case Group(inner, rest) =>
        && At(s, j, '{') && inner in Bodies(s, leaves, j + 1) && At(s, j + 1 + BodyLen(inner), '}')
        && rest in Bodies(s, leaves, j + 1 + BodyLen(inner) + 1)
  {
  }

  lemma LeafBalances(s: string, leaves: iset<(nat, nat)>, j: nat, n: nat, rest: Body)
    requires leaves <= Balancings(s) && (j, j + n) in leaves && (j + n, j + n + BodyLen(rest)) in Balancings(s)
    ensures (j, j + BodyLen(Leaf(n, rest))) in Balancings(s)
  {
    ChainBalances(s, j, j + n, j + n + BodyLen(rest));
  }

  lemma GroupThenRest(s: string, j: nat, e: nat, end: nat)
    requires At(s, j, '{') && At(s, e, '}') && (j + 1, e) in Balancings(s) && (e + 1, end) in Balancings(s)
    ensures (j, end) in Balancings(s)
  {
    GroupBalances(s, j, e);
    ChainBalances(s, j, e + 1, end);
  }

  /** A body leaves the matcher where it would be without it: at the same depth, just after the body. */
  lemma {:induction false} BodyBalances(s: string, leaves: iset<(nat, nat)>, j: nat, b: Body)
    requires leaves <= Balancings(s) && b in Bodies(s, leaves, j)
    ensures (j, j + BodyLen(b)) in Balancings(s)
    decreases b
  {
    BodyParts(s, leaves, j, b);
    match b {
      case Done =>
        NothingBalances(s, j);
        return;
      case Leaf(n, rest) =>
        BodyBalances(s, leaves, j + n, rest);
        LeafBalances(s, leaves, j, n, rest);
        return;
      case Group(inner, rest) =>
        BodyBalances(s, leaves, j + 1, inner);
        BodyBalances(s, leaves, j + 1 + BodyLen(inner) + 1, rest);
        GroupThenRest(s, j, j + 1 + BodyLen(inner), j + BodyLen(b));
        return;
    }
  }

  // ---- Whole test modules ----

  lemma SpaceSkipped(s: string, i: nat)
    requires i < |s| && IsSpace(s[i])
    ensures SkipBlank(s, i) == SkipBlank(s, i + 1)
  {
    assert Span(s, i, IsSpace) == Span(s, i + 1, IsSpace);
  }

  lemma CommentSkipped(s: string, i: nat, e: nat)
    requires At(s, i, '/') && CommentAt(s, i) == Through(e)
    ensures SkipBlank(s, i) == SkipBlank(s, e)
  {
    assert Span(s, i, IsSpace) == i;
  }

  lemma NoBlank(s: string, i: nat)
    requires At(s, i, 'm')
    ensures SkipBlank(s, i) == Some(i)
  {
    assert Span(s, i, IsSpace) == i;
  }

  lemma LineSkipped(s: string, i: nat, line: string)
    requires ReadsLine(s, i, line)
    ensures i + 3 + |line| <= |s| && SkipBlank(s, i) == SkipBlank(s, i + 3 + |line|)
  {
    LineCommentThrough(s, i, line);
    CommentSkipped(s, i, i + 2 + |line|);
    SpaceSkipped(s, i + 2 + |line|);
  }

  lemma BlockSkipped(s: string, i: nat, t: string)
    requires IsBlockText(t) && Has(s, i, t)
    ensures i + |t| <= |s| && SkipBlank(s, i) == SkipBlank(s, i + |t|)
  {
    BlockCommentThrough(s, i, t);
    CommentSkipped(s, i, i + |t|);
  }

  ghost predicate SkipsTo(s: string, i: nat, e: nat) {
    i <= |s| && e <= |s| && SkipBlank(s, i) == SkipBlank(s, e)
  }

  lemma SpaceCharSkipped(s: string, i: nat, e: nat)
    requires IsSpaceChar(s, i, e)
    ensures SkipsTo(s, i, e)
  {
    Classes();
    SpaceSkipped(s, i);
  }

  lemma LineCommentSkipped(s: string, i: nat, e: nat)
    requires IsLineComment(s, i, e)
    ensures SkipsTo(s, i, e)
  {
    var line :| ReadsLine(s, i, line) && e == i + |line| + 3;
    LineSkipped(s, i, line);
  }

  lemma BlockCommentSkipped(s: string, i: nat, e: nat)
    requires IsBlockComment(s, i, e)
    ensures SkipsTo(s, i, e)
  {
    var t :| IsBlockText(t) && Has(s, i, t) && e == i + |t|;
    BlockSkipped(s, i, t);
  }

  /** The stretches that make no difference to the search for the end of the blanks. */
  ghost function Skippings(s: string): iset<(nat, nat)> {
    iset p: (nat, nat) | SkipsTo(s, p.0, p.1)
  }

  lemma BlankSkipped(s: string, p: (nat, nat))
    requires p in Blanks(s)
    ensures p in Skippings(s)
  {
    if IsSpaceChar(s, p.0, p.1) {
      SpaceCharSkipped(s, p.0, p.1);
      return;
    }
    if IsLineComment(s, p.0, p.1) {
      LineCommentSkipped(s, p.0, p.1);
      return;
    }
    BlockCommentSkipped(s, p.0, p.1);
  }

  lemma BlanksSkipped(s: string)
    ensures Blanks(s) <= Skippings(s)
  {
    forall p | p in Blanks(s) ensures p in Skippings(s) {
      BlankSkipped(s, p);
    }
  }

  lemma SkippingsChain(s: string, i: nat, j: nat, k: nat)
    requires (i, j) in Skippings(s) && (j, k) in Skippings(s)
    ensures (i, k) in Skippings(s)
  {
  }

  lemma RunTail(leaves: iset<(nat, nat)>, cuts: seq<nat>)
    requires cuts in Runs(leaves) && |cuts| > 1
    ensures (cuts[0], cuts[1]) in leaves && cuts[1..] in Runs(leaves)
  {
    assert (cuts[0], cuts[0 + 1]) in leaves;
    forall k | 0 <= k < |cuts[1..]| - 1 ensures (cuts[1..][k], cuts[1..][k + 1]) in leaves {
      assert (cuts[k + 1], cuts[k + 1 + 1]) in leaves;
    }
  }

  lemma {:induction false} RunSkipped(s: string, leaves: iset<(nat, nat)>, cuts: seq<nat>)
    requires leaves <= Skippings(s) && cuts != [] && cuts in Runs(leaves) && cuts[|cuts| - 1] <= |s|
    ensures (cuts[0], cuts[|cuts| - 1]) in Skippings(s)
    decreases |cuts|
  {
    if |cuts| == 1 {
    } else {
      RunTail(leaves, cuts);
      RunSkipped(s, leaves, cuts[1..]);
      SkippingsChain(s, cuts[0], cuts[1], cuts[|cuts| - 1]);
    }
  }

  lemma HeadStartsWithM(s: string, i: nat, m: TestModule)
    requires m in Heads(s, i)
    ensures At(s, i, 'm')
  {
  }

  lemma HeadRead(s: string, i: nat, m: TestModule)
    requires m in Heads(s, i)
    ensures At(s, i, 'm') && ModuleHead(s, i) == Some(i + HeadLen(m))
  {
    var a := i + 3 + |m.gap1|;
    var b := a + |m.name|;
    CharOf(s, i + 3, m.gap1, 0);
    CharOf(s, a, m.name, 0);
    if m.gap2 != [] {
      CharOf(s, b, m.gap2, 0);
    }
    Classes();
    assert Span(s, i + 3, IsSpace) == a by { SpanText(s, i + 3, m.gap1, IsSpace); }
    assert Span(s, a, IsWord) == b by { SpanText(s, a, m.name, IsWord); }
    assert Span(s, b, IsSpace) == b + |m.gap2| by { SpanText(s, b, m.gap2, IsSpace); }
  }

  lemma LastClose(s: string, e: nat)
    requires At(s, e, '}')
    ensures CloseBraces(s, e, 1) == Some(e + 1)
  {
    BraceMoves(s, e);
  }

  lemma BlanksMeasured(s: string, leaves: iset<(nat, nat)>, cuts: seq<nat>)
    requires leaves <= Skippings(s)
    requires cuts != [] && cuts[0] == 0 && cuts in Runs(leaves) && At(s, cuts[|cuts| - 1], 'm')
    ensures SkipBlank(s, 0) == Some(cuts[|cuts| - 1])
  {
    RunSkipped(s, leaves, cuts);
    NoBlank(s, cuts[|cuts| - 1]);
  }

  lemma BodyMeasured(s: string, leaves: iset<(nat, nat)>, k: nat, b: Body)
    requires leaves <= Balancings(s) && b in Bodies(s, leaves, k) && At(s, k + BodyLen(b), '}')
    ensures k <= |s| && CloseBraces(s, k, 1) == Some(k + BodyLen(b) + 1)
  {
    BodyBalances(s, leaves, k, b);
    LastClose(s, k + BodyLen(b));
  }

  lemma StripOneBy(s: string, i: nat, k: nat, e: nat)
    requires SkipBlank(s, 0) == Some(i) && ModuleHead(s, i) == Some(k) && CloseBraces(s, k, 1) == Some(e)
    ensures StripOne(s) == Some(e)
  {
  }

  lemma BlanksStage(s: string, blanks: iset<(nat, nat)>, leaves: iset<(nat, nat)>, m: TestModule)
    requires blanks <= Skippings(s) && m in ModulesOf(s, blanks, leaves)
    ensures m.blanks != [] && SkipBlank(s, 0) == Some(HeadStart(m))
  {
    HeadStartsWithM(s, HeadStart(m), m);
    BlanksMeasured(s, blanks, m.blanks);
  }

  lemma HeadStage(s: string, blanks: iset<(nat, nat)>, leaves: iset<(nat, nat)>, m: TestModule)
    requires m in ModulesOf(s, blanks, leaves)
    ensures m.blanks != [] && ModuleHead(s, HeadStart(m)) == Some(HeadStart(m) + HeadLen(m))
  {
    HeadRead(s, HeadStart(m), m);
  }

  lemma BodyOf(s: string, blanks: iset<(nat, nat)>, leaves: iset<(nat, nat)>, m: TestModule)
    requires m in ModulesOf(s, blanks, leaves)
    ensures m.blanks != [] && m.body in Bodies(s, leaves, HeadStart(m) + HeadLen(m))
    ensures At(s, HeadStart(m) + HeadLen(m) + BodyLen(m.body), '}')
  {
  }

  lemma BodyStage(s: string, blanks: iset<(nat, nat)>, leaves: iset<(nat, nat)>, m: TestModule)
    requires leaves <= Balancings(s) && m in ModulesOf(s, blanks, leaves)
    ensures m.blanks != [] && HeadStart(m) + HeadLen(m) <= |s|
    ensures CloseBraces(s, HeadStart(m) + HeadLen(m), 1) == Some(ModuleLen(m))
  {
    BodyOf(s, blanks, leaves, m);
    BodyMeasured(s, leaves, HeadStart(m) + HeadLen(m), m.body);
  }

  lemma MeasuredBy(s: string, blanks: iset<(nat, nat)>, leaves: iset<(nat, nat)>, m: TestModule)
    requires blanks <= Skippings(s) && leaves <= Balancings(s) && m in ModulesOf(s, blanks, leaves)
    ensures m.blanks != [] && StripOne(s) == Some(ModuleLen(m))
  {
    BlanksStage(s, blanks, leaves, m);
    HeadStage(s, blanks, leaves, m);
    BodyStage(s, blanks, leaves, m);
    StripOneBy(s, HeadStart(m), HeadStart(m) + HeadLen(m), ModuleLen(m));
  }

  /** The skipper measures a test module exactly, whatever follows it. */
  lemma ModuleMeasured(s: string, m: TestModule)
    requires m in Modules(s)
    ensures m.blanks != [] && StripOne(s) == Some(ModuleLen(m))
  {
    BlanksSkipped(s);
    TokensBalance(s);
    MeasuredBy(s, Blanks(s), Tokens(s), m);
  }

  // ---- Whole files ----

  /** The attribute stands nowhere in the text. */
  ghost predicate MarkerFree(s: string) {
    forall k: nat :: k <= |s| ==> !Has(s, k, MARKER)
  }

  lemma NoOverlap(s: string, k: nat, at: nat)
    requires k < at < k + |MARKER| && Has(s, at, MARKER)
    ensures !Has(s, k, MARKER)
  {
    CharOf(s, at, MARKER, 0);
    var n := at - k;
    assert MARKER[n] != '#' && s[k + n] == '#';
  }

  /** The attribute cannot begin inside marker-free text: its # would have to recur inside it. */
  lemma MarkerFoundAfter(a: string, rest: string)
    requires MarkerFree(a)
    ensures Find(a + MARKER + rest, 0, MARKER) == Some(|a|)
  {
    var s := a + MARKER + rest;
    assert Has(s, 0, a) && Has(s, |a|, MARKER);
    forall k | 0 <= k < |a| ensures !Has(s, k, MARKER) {
      if k + |MARKER| <= |a| {
        HasInside(s, 0, a, k, MARKER);
      } else {
        NoOverlap(s, k, |a|);
      }
    }
    FindExactly(s, 0, MARKER, |a|);
  }

  lemma StripAt(a: string, after: string, n: nat)
    requires Find(a + MARKER + after, 0, MARKER) == Some(|a|) && StripOne(after) == Some(n)
    ensures Strip(a + MARKER + after) == a + Strip(after[n..])
  {
    var s := a + MARKER + after;
    assert s[|a| + |MARKER|..] == after && s[..|a|] == a;
  }

  /** An attribute and the test module after it vanish; what stands before stays as it is. */
  lemma StripRemovesModule(a: string, after: string, m: TestModule)
    requires MarkerFree(a) && m in Modules(after)
    ensures m.blanks != [] && ModuleLen(m) <= |after| && Strip(a + MARKER + after) == a + Strip(after[ModuleLen(m)..])
  {
    MarkerFoundAfter(a, after);
    ModuleMeasured(after, m);
    StripAt(a, after, ModuleLen(m));
  }

  /** What follows an attribute on something else: whitespace and comments up to the last cut, and there
      neither more of them nor the head of a module. */
  ghost predicate ReadsOther(s: string, cuts: seq<nat>) {
    && cuts != [] && cuts[0] == 0 && cuts in Runs(Blanks(s))
    && var i := cuts[|cuts| - 1];
    && i <= |s| && (i < |s| ==> !White(s[i])) && !(At(s, i, '/') && (At(s, i + 1, '/') || At(s, i + 1, '*')))
    && forall m :: m !in Heads(s, i)
  }

  /** A text piece as one gap or name of a head. */
  lemma PieceAt(s: string, i: nat, j: nat, p: char -> bool)
    requires i <= j <= |s| && Span(s, i, p) == j
    ensures Has(s, i, s[i..j]) && forall k :: 0 <= k < |s[i..j]| ==> p(s[i..j][k])
  {
    SpanExact(s, i, j, p);
  }

  /** Whatever the scanner takes for a head is one. */
  lemma HeadSound(s: string, i: nat) returns (m: TestModule)
    requires ModuleHead(s, i).Some?
    ensures m in Heads(s, i) && ModuleHead(s, i) == Some(i + HeadLen(m))
  {
    var a := Span(s, i + 3, IsSpace);
    var b := Span(s, a, IsWord);
    var c := Span(s, b, IsSpace);
    PieceAt(s, i + 3, a, IsSpace);
    PieceAt(s, a, b, IsWord);
    PieceAt(s, b, c, IsSpace);
    if a == i + 3 {
      SpanExact(s, a, b, IsWord);
    }
    Classes();
    m := TestModule([i], s[i + 3..a], s[a..b], s[b..c], Done);
  }

  /** The scanner recognises a head exactly where there is one. */
  lemma HeadIff(s: string, i: nat)
    ensures ModuleHead(s, i).Some? <==> exists m :: m in Heads(s, i)
  {
    if ModuleHead(s, i).Some? {
      var m := HeadSound(s, i);
    }
    if m :| m in Heads(s, i) {
      HeadRead(s, i, m);
    }
  }

  lemma BlankEnds(s: string, i: nat)
    requires i <= |s| && (i < |s| ==> !White(s[i])) && CommentAt(s, i) == NoComment
    ensures SkipBlank(s, i) == Some(i)
  {
    Classes();
    SpanExact(s, i, i, IsSpace);
  }

  /** Something else is not measured. */
  lemma OtherNotMeasured(s: string, cuts: seq<nat>)
    requires ReadsOther(s, cuts)
    ensures StripOne(s) == None
  {
    var i := cuts[|cuts| - 1];
    BlanksSkipped(s);
    RunSkipped(s, Blanks(s), cuts);
    BlankEnds(s, i);
    HeadIff(s, i);
  }

  lemma StripWhereNone(s: string, at: nat, after: string)
    requires Find(s, 0, MARKER) == Some(at) && after == s[at + |MARKER|..] && StripOne(after) == None
    ensures Strip(s) == s[..at] + MARKER + Strip(after)
  {
  }

  lemma Parts(a: string, marker: string, after: string)
    ensures (a + marker + after)[..|a|] == a && (a + marker + after)[|a| + |marker|..] == after
  {
  }

  lemma StripKeeps(a: string, after: string)
    requires Find(a + MARKER + after, 0, MARKER) == Some(|a|) && StripOne(after) == None
    ensures Strip(a + MARKER + after) == a + MARKER + Strip(after)
  {
    Parts(a, MARKER, after);
    StripWhereNone(a + MARKER + after, |a|, after);
  }

  /** An attribute on something else than a module with a body stays, and stripping goes on after it. */
  lemma OtherAttributesStay(a: string, after: string, cuts: seq<nat>)
    requires MarkerFree(a) && ReadsOther(after, cuts)
    ensures Strip(a + MARKER + after) == a + MARKER + Strip(after)
  {
    MarkerFoundAfter(a, after);
    OtherNotMeasured(after, cuts);
    StripKeeps(a, after);
  }

  /** A source file: stretches of production code, with test modules and other uses of the attribute between. */
  datatype File =
    | Last(code: string)
    | Then(code: string, tests: TestModule, rest: File)
    | Kept(code: string, rest: File)

  ghost predicate ReadsFile(s: string, f: File)
    decreases f
  {
    match f
    case Last(code) => s == code && MarkerFree(code)
    case Then(code, m, rest) =>
      && MarkerFree(code)
      && exists after :: s == code + MARKER + after && m in Modules(after)
                      && m.blanks != [] && ModuleLen(m) <= |after| && ReadsFile(after[ModuleLen(m)..], rest)
    case Kept(code, rest) =>
      && MarkerFree(code)
      && exists after, cuts :: s == code + MARKER + after && ReadsOther(after, cuts) && ReadsFile(after, rest)
  }

  function Production(f: File): string {
    match f
    case Last(code) => code
    case Then(code, _, rest) => code + Production(rest)
    case Kept(code, rest) => code + MARKER + Production(rest)
  }

  /** Stripping a file leaves exactly its production code. */
  lemma {:induction false} StripLeavesProduction(s: string, f: File)
    requires ReadsFile(s, f)
    ensures Strip(s) == Production(f)
    decreases f
  {
    match f {
      case Last(code) =>
        return;
      case Then(code, m, rest) =>
        var after :| s == code + MARKER + after && m in Modules(after)
                     && m.blanks != [] && ModuleLen(m) <= |after| && ReadsFile(after[ModuleLen(m)..], rest);
        StripRemovesModule(code, after, m);
        StripLeavesProduction(after[ModuleLen(m)..], rest);
        return;
      case Kept(code, rest) =>
        var after, cuts :| s == code + MARKER + after && ReadsOther(after, cuts) && ReadsFile(after, rest);
        OtherAttributesStay(code, after, cuts);
        StripLeavesProduction(after, rest);
        return;
    }
  }

  // ---- Where the skipper parts from Rust ----

  function BlockText(block: string): string {
    ['/', '*'] + block + ['*', '/']
  }

  /** Neither starts with a slash nor contains a star-slash. */
  ghost predicate PlainComment(block: string) {
    !At(block, 0, '/') && forall k: nat :: At(block, k, '*') ==> !At(block, k + 1, '/')
  }

  lemma PlainIsBlockText(block: string)
    requires PlainComment(block)
    ensures IsBlockText(BlockText(block))
  {
    var t := BlockText(block);
    assert t[0] == '/' && t[1] == '*' && t[|block| + 2] == '*' && t[|block| + 3] == '/';
    assert forall k :: 0 <= k < |block| ==> t[k + 2] == block[k];
    forall k | 0 <= k < |t| - 2 ensures !(t[k] == '*' && t[k + 1] == '/') {
      if 2 <= k < |block| + 2 {
        assert At(block, k - 2, t[k]);
      }
    }
  }

  lemma MeasuredIsPlain(block: string, rest: string)
    requires CommentAt(BlockText(block) + rest, 0) == Through(|block| + 4)
    ensures PlainComment(block)
  {
    var s := BlockText(block) + rest;
    assert s[0] == '/' && s[1] == '*' && (block != [] ==> s[2] == block[0]);
    FindIsFirst(s, 0, "*/");
    StarSlashAt(s, 1);
    forall k: nat | At(block, k, '*') ensures !At(block, k + 1, '/') {
      StarSlashAt(s, k + 2);
      assert s[k + 2] == block[k] && (k + 1 < |block| ==> s[k + 3] == block[k + 1]);
    }
  }

  /** A block comment is measured as a whole, whatever follows it, if and only if its text neither starts with a
      slash nor contains a star-slash: the search for the end begins at the opening, so a comment that opens
      with slash-star-slash counts as closed at once. */
  lemma BlockCommentMeasuredIff(block: string, rest: string)
    ensures CommentAt(BlockText(block) + rest, 0) == Through(|block| + 4) <==> PlainComment(block)
  {
    if PlainComment(block) {
      PlainIsBlockText(block);
      assert Has(BlockText(block) + rest, 0, BlockText(block));
      BlockCommentThrough(BlockText(block) + rest, 0, BlockText(block));
    }
    if CommentAt(BlockText(block) + rest, 0) == Through(|block| + 4) {
      MeasuredIsPlain(block, rest);
    }
  }

  /** For example, this test module is not recognised and its text stays: the comment is taken to end
      after three characters, so the brace in it is counted. */
  lemma SlashStarSlashDefeatsSkipper()
    ensures StripOne("mod t{/*/{*/}") == None
  {
    var s := "mod t{/*/{*/}";
    NoBlank(s, 0);
    HeadOfExample(s);
    CommentOfExample(s);
    CommentMove(s, 6, 9);
    SkipMove(s, 6, 9);
    EndOfExample(s);
  }

  lemma EndOfExample(s: string)
    requires |s| == 13 && s[9] == '{' && s[10] == '*' && s[11] == '/' && s[12] == '}'
    ensures CloseBraces(s, 9, 1) == None
  {
    PlainStep(s, 10, '*');
    PlainStep(s, 11, '/');
    Chain(s, 10, 11, 12);
    UnclosedEnd(s, 9, 12);
  }

  lemma HeadOfExample(s: string)
    requires |s| > 6 && s[0] == 'm' && s[1] == 'o' && s[2] == 'd' && s[3] == ' ' && s[4] == 't' && s[5] == '{'
    ensures ModuleHead(s, 0) == Some(6)
  {
    SpanThrough(s, 3, 1, IsSpace);
    SpanThrough(s, 4, 1, IsWord);
    SpanThrough(s, 5, 0, IsSpace);
  }

  lemma CommentOfExample(s: string)
    requires |s| > 8 && s[6] == '/' && s[7] == '*' && s[8] == '/'
    ensures CommentAt(s, 6) == Through(9)
  {
    StarSlashAt(s, 6);
    StarSlashAt(s, 7);
    FindExactly(s, 6, "*/", 7);
  }

  lemma UnclosedEnd(s: string, j: nat, e: nat)
    requires e + 1 == |s| && At(s, j, '{') && At(s, e, '}') && Balanced(s, j + 1, e)
    ensures CloseBraces(s, j, 1) == None
  {
    BraceMoves(s, j);
    BraceMoves(s, e);
    assert CloseBraces(s, e + 1, 1) == None;
  }

  lemma ExampleString(s: string)
    requires |s| > 8 && s[6] == '"' && s[7] == '}' && s[8] == '"'
    ensures (6, 9) in Tokens(s)
  {
    var us := [Bare('}')];
    assert us[1..] == [];
    assert ReadsQuoted(s, 6, Double, us) && UnitsLen(us) == 1;
    assert IsQuoted(s, 6, 9);
  }

  lemma ExampleHead(s: string, m: TestModule)
    requires |s| > 6 && s[0] == 'm' && s[1] == 'o' && s[2] == 'd' && s[3] == ' ' && s[4] == 't' && s[5] == '{'
    requires m.gap1 == [' '] && m.name == ['t'] && m.gap2 == []
    ensures m in Heads(s, 0) && HeadLen(m) == 6
  {
  }

  lemma OneLeafBody(s: string, leaves: iset<(nat, nat)>, j: nat, n: nat)
    requires (j, j + n) in leaves && j + n <= |s|
    ensures Leaf(n, Done) in Bodies(s, leaves, j) && BodyLen(Leaf(n, Done)) == n
  {
    assert ReadsBody(s, leaves, j + n, Done);
  }

  lemma AssembleModule(s: string, m: TestModule, n: nat)
    requires m.blanks == [0] && m in Heads(s, 0) && HeadLen(m) == n
    requires m.body in Bodies(s, Tokens(s), n) && At(s, n + BodyLen(m.body), '}')
    ensures m in Modules(s) && ModuleLen(m) == n + BodyLen(m.body) + 1
  {
  }

  /** A module whose body is the string of one closing brace is read as such, whatever follows it. */
  lemma ExampleModule(s: string) returns (m: TestModule)
    requires |s| > 9 && s[0] == 'm' && s[1] == 'o' && s[2] == 'd' && s[3] == ' ' && s[4] == 't' && s[5] == '{'
    requires s[6] == '"' && s[7] == '}' && s[8] == '"' && s[9] == '}'
    ensures m in Modules(s) && m.blanks != [] && ModuleLen(m) == 10
  {
    m := TestModule([0], [' '], ['t'], [], Leaf(3, Done));
    ExampleHead(s, m);
    ExampleString(s);
    OneLeafBody(s, Tokens(s), 6, 3);
    AssembleModule(s, m, 6);
  }

  /** An attribute on an import, for example, is something else. */
  lemma ExampleOther(s: string)
    requires |s| > 1 && s[0] == '\n' && s[1] == 'u'
    ensures ReadsOther(s, [0, 1])
  {
    assert IsSpaceChar(s, 0, 1);
    assert (0, 1) in Blanks(s);
  }

  /** A newline, mod, a name with an underscore in it, and an empty body, whatever follows. */
  ghost predicate StartsUnderscored(s: string) {
    && |s| > 9 && s[0] == '\n' && s[1] == 'm' && s[2] == 'o' && s[3] == 'd' && s[4] == ' '
    && s[5] == 'a' && s[6] == '_' && s[7] == 'b' && s[8] == '{' && s[9] == '}'
  }

  lemma UnderscoredHead(s: string, m: TestModule)
    requires StartsUnderscored(s) && m.gap1 == [' '] && m.name == ['a', '_', 'b'] && m.gap2 == []
    ensures m in Heads(s, 1) && HeadLen(m) == 8
  {
  }

  lemma NewlineIsBlank(s: string)
    requires s != [] && s[0] == '\n'
    ensures (0, 1) in Blanks(s)
  {
    assert IsSpaceChar(s, 0, 1);
  }

  lemma EmptyBodyRead(s: string, leaves: iset<(nat, nat)>, j: nat)
    requires j <= |s|
    ensures Done in Bodies(s, leaves, j)
  {
  }

  lemma UnderscoredModule(s: string) returns (m: TestModule)
    requires StartsUnderscored(s)
    ensures m in Modules(s) && m.blanks != [] && ModuleLen(m) == 10
  {
    m := TestModule([0, 1], [' '], ['a', '_', 'b'], [], Done);
    UnderscoredHead(s, m);
    NewlineIsBlank(s);
    EmptyBodyRead(s, Tokens(s), 9);
    assert ReadsRun(Blanks(s), m.blanks);
  }

  lemma NothingBefore(marker: string, after: string)
    ensures [] + marker + after == marker + after
  {
  }

  /** The attribute, on a line of its own, and such a module vanish. */
  lemma ExampleStripped(after: string)
    requires StartsUnderscored(after)
    ensures Strip(MARKER + after) == Strip(after[10..])
  {
    var m := UnderscoredModule(after);
    StripRemovesModule([], after, m);
    NothingBefore(MARKER, after);
  }
}
