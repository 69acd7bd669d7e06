/** The hand-written skipper that removes test modules from Rust source before an audit scan
    (xtask/src/verbs.rs). Text is ASCII, so bytes and characters coincide; a slice starting at j is
    represented by the offset j, and every function returns an absolute end offset. */
module RustLexer {
  import opened Basics
  import opened Wrappers

  const MARKER: string := "#[cfg(test)]"

  predicate IsSpace(c: char) {
    c == ' ' || c == '\t' || c == '\n' || c == '\U{000B}' || c == '\U{000C}' || c == '\r'
  }

  predicate IsWord(c: char) {
    'a' <= c <= 'z' || 'A' <= c <= 'Z' || '0' <= c <= '9' || c == '_'
  }

  predicate IsHash(c: char) {
    c == '#'
  }

  predicate NotNewline(c: char) {
    c != '\n'
  }

  predicate At(s: string, i: nat, c: char) {
    i < |s| && s[i] == c
  }

  /** The text occurs at offset i. */
  predicate Has(s: string, i: nat, text: string) {
    i + |text| <= |s| && forall k :: 0 <= k < |text| ==> s[i + k] == text[k]
  }

  // ---- Specification ----

  /** End of the longest run from i of characters satisfying p. */
  function Span(s: string, i: nat, p: char -> bool): (j: nat)
    requires i <= |s|
    ensures i <= j <= |s|
    decreases |s| - i
  {
    if i == |s| || !p(s[i]) then i else Span(s, i + 1, p)
  }

  /** A span is the one stretch all of whose characters qualify and that cannot be extended. */
  lemma {:induction false} SpanExact(s: string, i: nat, j: nat, p: char -> bool)
    requires i <= j <= |s|
    ensures Span(s, i, p) == j <==> (forall m :: i <= m < j ==> p(s[m])) && (j < |s| ==> !p(s[j]))
    decreases |s| - i
  {
    if i < |s| && p(s[i]) && i < j {
      SpanExact(s, i + 1, j, p);
    }
  }

  /** First occurrence at or after i. */
  function Find(s: string, i: nat, pat: string): (r: Option<nat>)
    requires i <= |s|
    ensures r.Some? ==> i <= r.value && Has(s, r.value, pat)
    decreases |s| - i
  {
    if Has(s, i, pat) then Some(i) else if i == |s| then None else Find(s, i + 1, pat)
  }

  /** Through the closing quote, from just after the opening one. A backslash takes the next character with it. */
  function CloseQuote(s: string, i: nat, quote: char, oneLine: bool): (r: Option<nat>)
    ensures r.Some? ==> i < r.value <= |s|
    decreases |s| - i
  {
    if i >= |s| then None
    else if s[i] == '\\' then CloseQuote(s, i + 2, quote, oneLine)
    else if s[i] == quote then Some(i + 1)
    else if oneLine && s[i] == '\n' then None
    else CloseQuote(s, i + 1, quote, oneLine)
  }

  function Closer(hashes: nat): string {
    ['"'] + seq(hashes, i => '#')
  }

  predicate IsRawStringStart(s: string, j: nat) {
    At(s, j, 'r') && At(s, Span(s, j + 1, IsHash), '"')
  }

  function SkipString(s: string, j: nat): (r: Option<nat>)
    requires j < |s|
    ensures r.Some? ==> j < r.value <= |s|
  {
    if s[j] == 'r' then
      var q := Span(s, j + 1, IsHash);
      if !At(s, q, '"') then None
      else
        var closer := Closer(q - j - 1);
        match Find(s, q + 1, closer) case None => None case Some(e) => Some(e + |closer|)
    else CloseQuote(s, j + 1, '"', false)
  }

  datatype Comment = NoComment | Unterminated | Through(end: nat)

  /** A line comment ends before its newline; a block comment at the first star-slash, searched from its start. */
  function CommentAt(s: string, j: nat): (c: Comment)
    ensures c.Through? ==> j + 2 <= c.end <= |s|
  {
    if At(s, j, '/') && At(s, j + 1, '/') then Through(Span(s, j + 2, NotNewline))
    else if At(s, j, '/') && At(s, j + 1, '*') then
      match Find(s, j, "*/") case None => Unterminated case Some(e) => Through(e + 2)
    else NoComment
  }

  datatype Move = Stuck | Skip(end: nat) | Open | Close

  function SkipOrStuck(r: Option<nat>): Move {
    match r case None => Stuck case Some(e) => Skip(e)
  }

  /** What the brace matcher does at j. */
  function MoveAt(s: string, j: nat): (m: Move)
    requires j < |s|
    ensures m.Skip? ==> j < m.end <= |s|
  {
    if s[j] == '"' || IsRawStringStart(s, j) then SkipOrStuck(SkipString(s, j))
    else if s[j] == 'b' && At(s, j + 1, '"') then SkipOrStuck(SkipString(s, j + 1))
    else if s[j] == '\'' then SkipOrStuck(CloseQuote(s, j + 1, '\'', true))
    else
      match CommentAt(s, j)
      case Through(e) => Skip(e)
      case Unterminated => Stuck
      case NoComment => if s[j] == '{' then Open else if s[j] == '}' then Close else Skip(j + 1)
  }

  /** Through the brace that closes the `depth` currently open ones. */
  function CloseBraces(s: string, j: nat, depth: nat): (r: Option<nat>)
    requires j <= |s| && depth > 0
    ensures r.Some? ==> j < r.value <= |s|
    decreases |s| - j
  {
    if j == |s| then None
    else
      match MoveAt(s, j)
      case Stuck => None
      case Skip(e) => CloseBraces(s, e, depth)
      case Open => CloseBraces(s, j + 1, depth + 1)
      case Close => if depth == 1 then Some(j + 1) else CloseBraces(s, j + 1, depth - 1)
  }

  /** Whitespace and comments. */
  function SkipBlank(s: string, i: nat): (r: Option<nat>)
    requires i <= |s|
    ensures r.Some? ==> i <= r.value <= |s|
    decreases |s| - i
  {
    var w := Span(s, i, IsSpace);
    match CommentAt(s, w)
    case NoComment => Some(w)
    case Unterminated => None
    case Through(e) => SkipBlank(s, e)
  }

  /** Just after the opening brace of `mod <ident> {` starting at i. */
  function ModuleHead(s: string, i: nat): (r: Option<nat>)
    ensures r.Some? ==> i < r.value <= |s|
  {
    if !(At(s, i, 'm') && At(s, i + 1, 'o') && At(s, i + 2, 'd')) || (i + 3 < |s| && IsWord(s[i + 3])) then None
    else
      var a := Span(s, i + 3, IsSpace);
      var b := Span(s, a, IsWord);
      var c := Span(s, b, IsSpace);
      if b == a || !At(s, c, '{') then None else Some(c + 1)
  }

  /** Length of a test module following the attribute, or None. */
  function StripOne(s: string): (r: Option<nat>)
    ensures r.Some? ==> 0 < r.value <= |s|
  {
    match SkipBlank(s, 0)
    case None => None
    case Some(i) => match ModuleHead(s, i) case None => None case Some(k) => CloseBraces(s, k, 1)
  }

  function Strip(s: string): string
    decreases |s|
  {
    match Find(s, 0, MARKER)
    case None => s
    case Some(at) =>
      var after := s[at + |MARKER|..];
      match StripOne(after)
      case Some(n) => s[..at] + Strip(after[n..])
      case None => s[..at] + MARKER + Strip(after)
  }

  // ---- The loops ----

  method SkipWhile(src: string, from: nat, p: char -> bool) returns (i: nat)
    requires from <= |src|
    ensures i == Span(src, from, p)
  {
    i := from;
    while i < |src| && p(src[i])
      invariant from <= i <= |src| && Span(src, from, p) == Span(src, i, p)
    {
      i := i + 1;
    }
  }

  method ScanRawStringStart(src: string, j: nat) returns (raw: bool)
    ensures raw <==> IsRawStringStart(src, j)
  {
    if !At(src, j, 'r') {
      return false;
    }
    var i := SkipWhile(src, j + 1, IsHash);
    return At(src, i, '"');
  }

  method ScanQuoted(src: string, from: nat, quote: char, oneLine: bool) returns (r: Option<nat>)
    ensures r == CloseQuote(src, from, quote, oneLine)
  {
    var i := from;
    while i < |src|
      invariant CloseQuote(src, from, quote, oneLine) == CloseQuote(src, i, quote, oneLine)
    {
      if src[i] == '\\' {
        i := i + 2;
      } else if src[i] == quote {
        return Some(i + 1);
      } else if oneLine && src[i] == '\n' {
        return None;
      } else {
        i := i + 1;
      }
    }
    return None;
  }

  method ScanString(src: string, j: nat) returns (r: Option<nat>)
    requires j < |src|
    ensures r == SkipString(src, j)
  {
    if src[j] == 'r' {
      var i := SkipWhile(src, j + 1, IsHash);
      if !At(src, i, '"') {
        return None;
      }
      var closer := Closer(i - j - 1);
      var end := Find(src, i + 1, closer);
      return match end case None => None case Some(e) => Some(e + |closer|);
    }
    r := ScanQuoted(src, j + 1, '"', false);
  }

  method ScanComment(src: string, j: nat) returns (c: Comment)
    ensures c == CommentAt(src, j)
  {
    if At(src, j, '/') && At(src, j + 1, '/') {
      var i := SkipWhile(src, j + 2, NotNewline);
      return Through(i);
    }
    if At(src, j, '/') && At(src, j + 1, '*') {
      var end := Find(src, j, "*/");
      return match end case None => Unterminated case Some(e) => Through(e + 2);
    }
    return NoComment;
  }

  method ScanMove(src: string, j: nat) returns (m: Move)
    requires j < |src|
    ensures m == MoveAt(src, j)
  {
    var raw := ScanRawStringStart(src, j);
    if src[j] == '"' || raw {
      var skipped := ScanString(src, j);
      return SkipOrStuck(skipped);
    }
    if src[j] == 'b' && At(src, j + 1, '"') {
      var skipped := ScanString(src, j + 1);
      return SkipOrStuck(skipped);
    }
    if src[j] == '\'' {
      var skipped := ScanQuoted(src, j + 1, '\'', true);
      return SkipOrStuck(skipped);
    }
    var comment := ScanComment(src, j);
    match comment {
      case Through(e) => return Skip(e);
      case Unterminated => return Stuck;
      case NoComment => return if src[j] == '{' then Open else if src[j] == '}' then Close else Skip(j + 1);
    }
  }

  /** From just after the opening brace of the module. */
  method ScanRegion(src: string, from: nat) returns (r: Option<nat>)
    requires from <= |src|
    ensures r == CloseBraces(src, from, 1)
  {
    var j, depth := from, 1;
    while j < |src|
      invariant j <= |src| && depth > 0
      invariant CloseBraces(src, j, depth) == CloseBraces(src, from, 1)
    {
      var move := ScanMove(src, j);
      match move {
        case Stuck =>
          return None;
        case Skip(e) =>
          j := e;
        case Open =>
          j, depth := j + 1, depth + 1;
        case Close =>
          if depth == 1 {
            return Some(j + 1);
          }
          j, depth := j + 1, depth - 1;
      }
    }
    return None;
  }

  method ScanBlank(src: string) returns (r: Option<nat>)
    ensures r == SkipBlank(src, 0)
  {
    var i := 0;
    while true
      invariant i <= |src| && SkipBlank(src, i) == SkipBlank(src, 0)
      decreases |src| - i
    {
      var w := SkipWhile(src, i, IsSpace);
      var comment := ScanComment(src, w);
      match comment {
        case NoComment => return Some(w);
        case Unterminated => return None;
        case Through(e) => i := e;
      }
    }
  }

  method ScanModuleHead(src: string, i: nat) returns (r: Option<nat>)
    ensures r == ModuleHead(src, i)
  {
    if !(At(src, i, 'm') && At(src, i + 1, 'o') && At(src, i + 2, 'd')) {
      return None;
    }
    if i + 3 < |src| && IsWord(src[i + 3]) {
      return None;
    }
    var startIdent := SkipWhile(src, i + 3, IsSpace);
    var endIdent := SkipWhile(src, startIdent, IsWord);
    if endIdent == startIdent {
      return None;
    }
    var brace := SkipWhile(src, endIdent, IsSpace);
    if !At(src, brace, '{') {
      return None;
    }
    return Some(brace + 1);
  }

  method StripOneTestMod(src: string) returns (r: Option<nat>)
    ensures r == StripOne(src)
  {
    var blank := ScanBlank(src);
    if blank == None {
      return None;
    }
    var head := ScanModuleHead(src, blank.value);
    if head == None {
      return None;
    }
    r := ScanRegion(src, head.value);
  }

  method StripTestModules(src: string) returns (out: string)
    ensures out == Strip(src)
  {
    out := "";
    var rest := src;
    while true
      invariant Strip(src) == out + Strip(rest)
      decreases |rest|
    {
      var found := Find(rest, 0, MARKER);
      if found == None {
        return out + rest;
      }
      var after := rest[found.value + |MARKER|..];
      var region := StripOneTestMod(after);
      var kept := rest[..found.value];
      match region {
        case Some(n) =>
          Assoc(out, kept, Strip(after[n..]));
          out := out + kept;
          rest := after[n..];
        case None =>
          Assoc(out, kept + MARKER, Strip(after));
          out := out + (kept + MARKER);
          rest := after;
      }
    }
  }
}
