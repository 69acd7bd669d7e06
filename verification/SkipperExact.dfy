/** Exactly what the skipper removes: its scan in terms of what the text is, in both directions
    (xtask/src/verbs.rs). The readings here are the scanner's own, so they take in unbalanced and unfinished
    text too; test modules as Rust writes them are among them. */
module SkipperExact {
  import opened Wrappers
  import opened RustLexer
  import opened TestModules

  // ---- What the brace matcher steps over ----

  /** "..." or '...', the closing quote included. */
  ghost predicate StepsQuoted(s: string, j: nat, e: nat, d: Delimiter) {
    exists us :: ReadsQuoted(s, j, d, us) && e == j + UnitsLen(us) + 2
  }

  ghost predicate StepsByteString(s: string, j: nat, e: nat) {
    At(s, j, 'b') && StepsQuoted(s, j + 1, e, Double)
  }

  /** To the newline, or to the end of the text. */
  predicate StepsLine(s: string, j: nat, e: nat) {
    && At(s, j, '/') && At(s, j + 1, '/') && j + 2 <= e <= |s|
    && (forall k :: j + 2 <= k < e ==> s[k] != '\n') && (e < |s| ==> s[e] == '\n')
  }

  /** Through the first star-slash, which may share the star of the opening. */
  predicate StepsBlock(s: string, j: nat, e: nat) {
    && At(s, j, '/') && At(s, j + 1, '*') && j + 2 <= e <= |s| && s[e - 2] == '*' && s[e - 1] == '/'
    && forall k :: j <= k < e - 2 ==> !(s[k] == '*' && s[k + 1] == '/')
  }

  predicate OpensComment(s: string, j: nat) {
    At(s, j, '/') && (At(s, j + 1, '/') || At(s, j + 1, '*'))
  }

  ghost predicate StepsOther(s: string, j: nat, e: nat) {
    && j < |s| && e == j + 1 && s[j] !in {'"', '\'', '{', '}'}
    && !OpensComment(s, j) && !StartsRaw(s, j) && !(s[j] == 'b' && At(s, j + 1, '"'))
  }

  ghost function Steps(s: string): iset<(nat, nat)> {
    iset p: (nat, nat) |
      || StepsQuoted(s, p.0, p.1, Double) || StepsQuoted(s, p.0, p.1, Single) || StepsByteString(s, p.0, p.1)
      || IsRawString(s, p.0, p.1) || StepsLine(s, p.0, p.1) || StepsBlock(s, p.0, p.1) || StepsOther(s, p.0, p.1)
  }

  lemma {:induction false} UnitsOf(s: string, i: nat, quote: char, oneLine: bool, e: nat) returns (us: seq<Unit>)
    requires CloseQuote(s, i, quote, oneLine) == Some(e) && quote != '\\'
    ensures ReadsUnits(s, i, us, quote, oneLine) && e == i + UnitsLen(us) + 1
    decreases |s| - i
  {
    if s[i] == '\\' {
      var rest := UnitsOf(s, i + 2, quote, oneLine, e);
      us := [Escaped(s[i + 1])] + rest;
      assert us[1..] == rest;
    } else if s[i] == quote {
      us := [];
    } else {
      var rest := UnitsOf(s, i + 1, quote, oneLine, e);
      us := [Bare(s[i])] + rest;
      assert us[1..] == rest;
    }
  }

  /** A quoted literal is measured to its closing quote, and only if it has one, a character literal only if it has
      it on its line. */
  lemma QuotedIff(s: string, j: nat, d: Delimiter, e: nat)
    requires At(s, j, d.Char())
    ensures CloseQuote(s, j + 1, d.Char(), d.Single?) == Some(e) <==> StepsQuoted(s, j, e, d)
  {
    if CloseQuote(s, j + 1, d.Char(), d.Single?) == Some(e) {
      var us := UnitsOf(s, j + 1, d.Char(), d.Single?, e);
      assert ReadsQuoted(s, j, d, us);
    }
    if us :| ReadsQuoted(s, j, d, us) && e == j + UnitsLen(us) + 2 {
      QuoteCloses(s, j + 1, us, d.Char(), d.Single?);
    }
  }

  lemma HashesAre(s: string, j: nat, h: nat)
    requires OpensRaw(s, j, h)
    ensures Has(s, j + 1, seq(h, i => '#')) && Span(s, j + 1, IsHash) == j + 1 + h
  {
    SpanExact(s, j + 1, j + 1 + h, IsHash);
  }

  lemma RawOf(s: string, j: nat, h: nat, f: nat)
    requires OpensRaw(s, j, h) && Find(s, j + 2 + h, Closer(h)) == Some(f)
    ensures ReadsRawString(s, j, h, s[j + 2 + h..f])
  {
    var raw := s[j + 2 + h..f];
    assert Closer(h) == Ending(h);
    HashesAre(s, j, h);
    FindIsFirst(s, j + 2 + h, Closer(h));
    assert Has(s, j + 2 + h, raw + Ending(h)) by {
      forall k | 0 <= k < |raw + Ending(h)| ensures s[j + 2 + h + k] == (raw + Ending(h))[k] {
        if k >= |raw| {
          assert s[f + (k - |raw|)] == Closer(h)[k - |raw|];
        }
      }
    }
    forall k: nat | k < |raw| ensures !Has(raw + Ending(h), k, Ending(h)) {
      if Has(raw + Ending(h), k, Ending(h)) {
        HasInside(s, j + 2 + h, raw + Ending(h), k, Ending(h));
      }
    }
  }

  /** A raw string is measured to the first quote with as many hashes as it opened with, and only if there is one. */
  lemma RawIff(s: string, j: nat, e: nat)
    requires IsRawStringStart(s, j)
    ensures SkipString(s, j) == Some(e) <==> IsRawString(s, j, e)
  {
    if SkipString(s, j) == Some(e) {
      var q := Span(s, j + 1, IsHash);
      SpanExact(s, j + 1, q, IsHash);
      var h := q - j - 1;
      RawOf(s, j, h, e - 1 - h);
    }
    if h: nat, raw :| ReadsRawString(s, j, h, raw) && e == j + 2 * h + |raw| + 3 {
      RawStringMove(s, j, h, raw);
    }
  }

  lemma LineIff(s: string, j: nat, e: nat)
    requires At(s, j, '/') && At(s, j + 1, '/')
    ensures CommentAt(s, j) == Through(e) <==> StepsLine(s, j, e)
  {
    if j + 2 <= e <= |s| {
      SpanExact(s, j + 2, e, NotNewline);
    }
  }

  lemma BlockIff(s: string, j: nat, e: nat)
    requires At(s, j, '/') && At(s, j + 1, '*')
    ensures CommentAt(s, j) == Through(e) <==> StepsBlock(s, j, e)
  {
    if CommentAt(s, j) == Through(e) {
      FindIsFirst(s, j, "*/");
      StarSlashAt(s, e - 2);
      forall k | j <= k < e - 2 ensures !(s[k] == '*' && s[k + 1] == '/') {
        StarSlashAt(s, k);
      }
    }
    if StepsBlock(s, j, e) {
      StarSlashAt(s, e - 2);
      forall k | j <= k < e - 2 ensures !Has(s, k, "*/") {
        StarSlashAt(s, k);
      }
      FindExactly(s, j, "*/", e - 2);
    }
  }

  lemma CommentIff(s: string, j: nat, e: nat)
    ensures CommentAt(s, j) == Through(e) <==> StepsLine(s, j, e) || StepsBlock(s, j, e)
    ensures CommentAt(s, j) == NoComment <==> !OpensComment(s, j)
  {
    if At(s, j, '/') && At(s, j + 1, '/') {
      LineIff(s, j, e);
    } else if At(s, j, '/') && At(s, j + 1, '*') {
      BlockIff(s, j, e);
    }
  }

  /** The kinds of step are told apart by how they begin. */
  lemma StepBegins(s: string, j: nat, e: nat)
    ensures StepsQuoted(s, j, e, Double) ==> At(s, j, '"')
    ensures StepsQuoted(s, j, e, Single) ==> At(s, j, '\'')
    ensures StepsByteString(s, j, e) ==> At(s, j, 'b') && At(s, j + 1, '"')
    ensures IsRawString(s, j, e) ==> StartsRaw(s, j)
  {
    if h: nat, raw :| ReadsRawString(s, j, h, raw) && e == j + 2 * h + |raw| + 3 {
      var hs := seq(h, i => '#');
      assert forall m :: j + 1 <= m < j + 1 + h ==> s[m] == hs[m - j - 1];
      assert OpensRaw(s, j, h);
    }
  }

  /** The matcher opens at an opening brace, closes at a closing one, and otherwise steps over exactly one of these;
      where none can be stepped over it is stuck. */
  lemma StepIff(s: string, j: nat, e: nat)
    requires j < |s|
    ensures MoveAt(s, j) == Skip(e) <==> (j, e) in Steps(s)
    ensures MoveAt(s, j) == Open <==> s[j] == '{'
    ensures MoveAt(s, j) == Close <==> s[j] == '}'
  {
    StepBegins(s, j, e);
    RawStartIff(s, j);
    CommentIff(s, j, e);
    if s[j] == '"' {
      QuotedIff(s, j, Double, e);
    } else if IsRawStringStart(s, j) {
      RawIff(s, j, e);
    } else if s[j] == 'b' && At(s, j + 1, '"') {
      QuotedIff(s, j + 1, Double, e);
    } else if s[j] == '\'' {
      QuotedIff(s, j, Single, e);
    }
  }

  lemma StepsBalance(s: string)
    ensures Steps(s) <= Balancings(s)
  {
    forall p | p in Steps(s) ensures p in Balancings(s) {
      StepIsBalanced(s, p.0, p.1);
    }
  }

  lemma StepIsBalanced(s: string, j: nat, e: nat)
    requires (j, e) in Steps(s)
    ensures Balanced(s, j, e)
  {
    StepBegins(s, j, e);
    StepIff(s, j, e);
    SkipMove(s, j, e);
  }

  // ---- Regions ----

  /** Closing a + d braces is closing a of them and then d. */
  lemma {:induction false} ClosesInTurn(s: string, j: nat, a: nat, d: nat) returns (k: nat)
    requires j <= |s| && a > 0 && d > 0 && CloseBraces(s, j, a + d).Some?
    ensures j < k <= |s| && CloseBraces(s, j, a) == Some(k) && CloseBraces(s, k, d) == CloseBraces(s, j, a + d)
    decreases |s| - j
  {
    match MoveAt(s, j) {
      case Skip(e) => k := ClosesInTurn(s, e, a, d);
      case Open => k := ClosesInTurn(s, j + 1, a + 1, d);
      case Close => if a == 1 { k := j + 1; } else { k := ClosesInTurn(s, j + 1, a - 1, d); }
    }
  }

  /** The bodies made of these leaves that reach from k to a closing brace which ends at e. */
  ghost function BodiesTo(s: string, leaves: iset<(nat, nat)>, k: nat, e: nat): iset<Body> {
    iset b | b in Bodies(s, leaves, k) && e == k + BodyLen(b) + 1 && At(s, k + BodyLen(b), '}')
  }

  lemma StepThenBody(s: string, leaves: iset<(nat, nat)>, j: nat, n: nat, e: nat, rest: Body)
    requires j < n && (j, n) in leaves && rest in BodiesTo(s, leaves, n, e)
    ensures Leaf(n - j, rest) in BodiesTo(s, leaves, j, e)
  {
  }

  lemma GroupRead(s: string, leaves: iset<(nat, nat)>, j: nat, inner: Body, rest: Body)
    requires At(s, j, '{') && inner in Bodies(s, leaves, j + 1) && At(s, j + 1 + BodyLen(inner), '}')
    requires rest in Bodies(s, leaves, j + 1 + BodyLen(inner) + 1)
    ensures Group(inner, rest) in Bodies(s, leaves, j)
  {
  }

  lemma GroupThenBody(s: string, leaves: iset<(nat, nat)>, j: nat, k: nat, e: nat, inner: Body, rest: Body)
    requires At(s, j, '{') && inner in BodiesTo(s, leaves, j + 1, k) && rest in BodiesTo(s, leaves, k, e)
    ensures Group(inner, rest) in BodiesTo(s, leaves, j, e)
  {
    GroupRead(s, leaves, j, inner, rest);
  }

  lemma EmptyBody(s: string, leaves: iset<(nat, nat)>, j: nat)
    requires At(s, j, '}')
    ensures Done in BodiesTo(s, leaves, j, j + 1)
  {
  }

  lemma {:induction false} BodyFrom(s: string, j: nat, e: nat) returns (b: Body)
    requires j < |s| && CloseBraces(s, j, 1) == Some(e)
    ensures b in BodiesTo(s, Steps(s), j, e)
    decreases |s| - j
  {
    match MoveAt(s, j) {
      case Skip(n) =>
        var rest := BodyFrom(s, n, e);
        StepIff(s, j, n);
        StepThenBody(s, Steps(s), j, n, e, rest);
        b := Leaf(n - j, rest);
        return;
      case Open =>
        var k := ClosesInTurn(s, j + 1, 1, 1);
        var inner := BodyFrom(s, j + 1, k);
        var rest := BodyFrom(s, k, e);
        StepIff(s, j, j);
        GroupThenBody(s, Steps(s), j, k, e, inner, rest);
        b := Group(inner, rest);
        return;
      case Close =>
        StepIff(s, j, j);
        EmptyBody(s, Steps(s), j);
        b := Done;
        return;
    }
  }

  lemma BodyOpened(s: string, leaves: iset<(nat, nat)>, k: nat, e: nat, b: Body)
    requires b in BodiesTo(s, leaves, k, e)
    ensures b in Bodies(s, leaves, k) && e == k + BodyLen(b) + 1 && At(s, k + BodyLen(b), '}')
  {
  }

  /** The region ends just after the closing brace of a body made of such steps and brace groups, and there is one
      exactly if there is such a body. */
  lemma RegionIff(s: string, k: nat, e: nat)
    requires k <= |s|
    ensures CloseBraces(s, k, 1) == Some(e) <==> exists b :: b in BodiesTo(s, Steps(s), k, e)
  {
    if CloseBraces(s, k, 1) == Some(e) {
      var b := BodyFrom(s, k, e);
    }
    StepsBalance(s);
    if b :| b in BodiesTo(s, Steps(s), k, e) {
      BodyOpened(s, Steps(s), k, e, b);
      BodyMeasured(s, Steps(s), k, b);
    }
  }

  // ---- Blanks ----

  ghost function BlankSteps(s: string): iset<(nat, nat)> {
    iset p: (nat, nat) | IsSpaceChar(s, p.0, p.1) || StepsLine(s, p.0, p.1) || StepsBlock(s, p.0, p.1)
  }

  lemma BlankStepsSkipped(s: string)
    ensures BlankSteps(s) <= Skippings(s)
  {
    forall p | p in BlankSteps(s) ensures p in Skippings(s) {
      BlankStepSkipped(s, p.0, p.1);
    }
  }

  lemma BlankStepSkipped(s: string, i: nat, e: nat)
    requires (i, e) in BlankSteps(s)
    ensures SkipsTo(s, i, e)
  {
    if IsSpaceChar(s, i, e) {
      SpaceCharSkipped(s, i, e);
    } else {
      CommentIff(s, i, e);
      CommentSkipped(s, i, e);
    }
  }

  /** Neither whitespace nor a comment starts here. */
  predicate NoBlankAt(s: string, i: nat) {
    i <= |s| && (i < |s| ==> !White(s[i])) && !OpensComment(s, i)
  }

  lemma RunCons(leaves: iset<(nat, nat)>, i: nat, cuts: seq<nat>)
    requires cuts in Runs(leaves) && cuts != [] && (i, cuts[0]) in leaves
    ensures [i] + cuts in Runs(leaves)
  {
    var all := [i] + cuts;
    forall k | 0 <= k < |all| - 1 ensures (all[k], all[k + 1]) in leaves {
      if k > 0 {
        assert (cuts[k - 1], cuts[k - 1 + 1]) in leaves;
      }
    }
  }

  lemma {:induction false} BlanksFrom(s: string, i: nat, w: nat) returns (cuts: seq<nat>)
    requires i <= |s| && SkipBlank(s, i) == Some(w)
    ensures cuts != [] && cuts[0] == i && cuts[|cuts| - 1] == w && cuts in Runs(BlankSteps(s)) && NoBlankAt(s, w)
    decreases |s| - i
  {
    Classes();
    if i < |s| && White(s[i]) {
      SpaceSkipped(s, i);
      var rest := BlanksFrom(s, i + 1, w);
      assert IsSpaceChar(s, i, i + 1);
      RunCons(BlankSteps(s), i, rest);
      cuts := [i] + rest;
    } else {
      SpanExact(s, i, i, IsSpace);
      match CommentAt(s, i) {
        case NoComment =>
          CommentIff(s, i, i);
          cuts := [i];
        case Through(e) =>
          CommentIff(s, i, e);
          var rest := BlanksFrom(s, e, w);
          RunCons(BlankSteps(s), i, rest);
          cuts := [i] + rest;
      }
    }
  }

  ghost predicate BlanksTo(s: string, cuts: seq<nat>, w: nat) {
    cuts != [] && cuts[0] == 0 && cuts[|cuts| - 1] == w && cuts in Runs(BlankSteps(s)) && NoBlankAt(s, w)
  }

  /** The search for the end of the blanks gets to w exactly if whitespace and comments lead there and no further. */
  lemma BlanksIff(s: string, w: nat)
    ensures SkipBlank(s, 0) == Some(w) <==> exists cuts :: BlanksTo(s, cuts, w)
  {
    if SkipBlank(s, 0) == Some(w) {
      var cuts := BlanksFrom(s, 0, w);
      assert BlanksTo(s, cuts, w);
    }
    if cuts :| BlanksTo(s, cuts, w) {
      BlankStepsSkipped(s);
      RunSkipped(s, BlankSteps(s), cuts);
      CommentIff(s, w, w);
      BlankEnds(s, w);
    }
  }

  // ---- Whole modules and files ----

  /** The modules the skipper takes a text to start with. */
  ghost function TakenModules(s: string): iset<TestModule> {
    ModulesOf(s, BlankSteps(s), Steps(s))
  }

  ghost predicate Takes(s: string, n: nat) {
    exists m :: m in TakenModules(s) && m.blanks != [] && ModuleLen(m) == n
  }

  lemma AssembleTaken(s: string, h: TestModule, cuts: seq<nat>, b: Body, i: nat, n: nat)
    requires BlanksTo(s, cuts, i) && h in Heads(s, i) && b in BodiesTo(s, Steps(s), i + HeadLen(h), n)
    ensures Takes(s, n)
  {
    var m := TestModule(cuts, h.gap1, h.name, h.gap2, b);
    assert m in Heads(s, i);
    assert m in TakenModules(s);
    assert ModuleLen(m) == n;
  }

  lemma MeasuredIsTaken(s: string, i: nat, k: nat, n: nat)
    requires SkipBlank(s, 0) == Some(i) && ModuleHead(s, i) == Some(k) && CloseBraces(s, k, 1) == Some(n)
    ensures Takes(s, n)
  {
    var cuts := BlanksFrom(s, 0, i);
    var h := HeadSound(s, i);
    var b := BodyFrom(s, k, n);
    AssembleTaken(s, h, cuts, b, i, n);
  }

  lemma TakenIsMeasured(s: string, m: TestModule)
    requires m in TakenModules(s)
    ensures m.blanks != [] && StripOne(s) == Some(ModuleLen(m))
  {
    BlankStepsSkipped(s);
    StepsBalance(s);
    MeasuredBy(s, BlankSteps(s), Steps(s), m);
  }

  /** What follows the attribute is removed up to n if and only if it reads, up to there, as blanks, `mod`, a name, an
      opening brace, a body of steps and brace groups and its closing brace. */
  lemma StripOneIff(s: string, n: nat)
    ensures StripOne(s) == Some(n) <==> Takes(s, n)
  {
    if StripOne(s) == Some(n) {
      MeasuredIsTaken(s, SkipBlank(s, 0).value, ModuleHead(s, SkipBlank(s, 0).value).value, n);
    }
    if m :| m in TakenModules(s) && m.blanks != [] && ModuleLen(m) == n {
      TakenIsMeasured(s, m);
    }
  }

  /** A text as the skipper goes through it: after each attribute either a module it takes, which vanishes, or
      something else, and then the attribute stays. */
  datatype Passage =
    | Rest(text: string)
    | Removed(before: string, len: nat, rest: Passage)
    | Left(before: string, rest: Passage)

  ghost predicate Passes(s: string, p: Passage)
    decreases p
  {
    match p
    case Rest(text) => s == text && MarkerFree(text)
    case Removed(a, n, rest) =>
      MarkerFree(a) && exists after :: s == a + MARKER + after && Takes(after, n) && n <= |after| && Passes(after[n..], rest)
    case Left(a, rest) =>
      MarkerFree(a) && exists after :: s == a + MARKER + after && (forall n: nat :: !Takes(after, n)) && Passes(after, rest)
  }

  function LeftOver(p: Passage): string {
    match p
    case Rest(text) => text
    case Removed(a, _, rest) => a + LeftOver(rest)
    case Left(a, rest) => a + MARKER + LeftOver(rest)
  }

  lemma NoneTaken(s: string)
    ensures StripOne(s) == None <==> forall n: nat :: !Takes(s, n)
  {
    if StripOne(s) == None {
      forall n: nat ensures !Takes(s, n) {
        StripOneIff(s, n);
      }
    } else {
      StripOneIff(s, StripOne(s).value);
    }
  }

  /** Stripping a text leaves what its passage leaves. */
  lemma {:induction false} StripFollows(s: string, p: Passage)
    requires Passes(s, p)
    ensures Strip(s) == LeftOver(p)
    decreases p
  {
    match p {
      case Rest(text) =>
        FindNone(s, 0, MARKER);
        return;
      case Removed(a, n, rest) =>
        var after :| s == a + MARKER + after && Takes(after, n) && n <= |after| && Passes(after[n..], rest);
        MarkerFoundAfter(a, after);
        StripOneIff(after, n);
        StripAt(a, after, n);
        StripFollows(after[n..], rest);
        return;
      case Left(a, rest) =>
        var after :| s == a + MARKER + after && (forall n: nat :: !Takes(after, n)) && Passes(after, rest);
        MarkerFoundAfter(a, after);
        NoneTaken(after);
        StripKeeps(a, after);
        StripFollows(after, rest);
        return;
    }
  }

  lemma SplitAround(s: string, at: nat, text: string)
    requires Has(s, at, text)
    ensures s == s[..at] + text + s[at + |text|..]
  {
    assert s[at..at + |text|] == text;
    assert s == s[..at] + s[at..at + |text|] + s[at + |text|..];
  }

  lemma NoneBefore(s: string, at: nat, text: string)
    requires text != [] && Find(s, 0, text) == Some(at)
    ensures forall k: nat :: k <= at ==> !Has(s[..at], k, text)
  {
    FindIsFirst(s, 0, text);
    forall k: nat | k <= at ensures !Has(s[..at], k, text) {
      if Has(s[..at], k, text) {
        forall m | 0 <= m < |text| ensures s[k + m] == text[m] {
          assert s[..at][k + m] == text[m];
        }
        assert Has(s, k, text);
      }
    }
  }

  lemma SplitAtMarker(s: string, at: nat)
    requires Find(s, 0, MARKER) == Some(at)
    ensures MarkerFree(s[..at]) && at + |MARKER| <= |s| && s == s[..at] + MARKER + s[at + |MARKER|..]
  {
    SplitAround(s, at, MARKER);
    NoneBefore(s, at, MARKER);
  }

  lemma RemovedPassage(a: string, after: string, n: nat, rest: Passage)
    requires MarkerFree(a) && StripOne(after) == Some(n) && Passes(after[n..], rest)
    ensures Passes(a + MARKER + after, Removed(a, n, rest))
  {
    StripOneIff(after, n);
  }

  lemma LeftPassage(a: string, after: string, rest: Passage)
    requires MarkerFree(a) && StripOne(after) == None && Passes(after, rest)
    ensures Passes(a + MARKER + after, Left(a, rest))
  {
    NoneTaken(after);
  }

  lemma {:induction false} PassageOf(s: string) returns (p: Passage)
    ensures Passes(s, p)
    decreases |s|
  {
    match Find(s, 0, MARKER) {
      case None =>
        FindNone(s, 0, MARKER);
        p := Rest(s);
        return;
      case Some(at) =>
        SplitAtMarker(s, at);
        var a, after := s[..at], s[at + |MARKER|..];
        match StripOne(after) {
          case Some(n) =>
            var rest := PassageOf(after[n..]);
            RemovedPassage(a, after, n, rest);
            p := Removed(a, n, rest);
            return;
          case None =>
            var rest := PassageOf(after);
            LeftPassage(a, after, rest);
            p := Left(a, rest);
            return;
        }
    }
  }

  /** Every text has a passage, so this says what stripping does to any text at all. */
  lemma StripTotal(s: string) returns (p: Passage)
    ensures Passes(s, p) && Strip(s) == LeftOver(p)
  {
    p := PassageOf(s);
    StripFollows(s, p);
  }
}
