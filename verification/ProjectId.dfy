/** Project ids `prj_<name>_<ulid>` (crates/domain/src/project_id.rs). */
module ProjectId {
  import opened Wrappers
  import opened Ulid

  predicate IsNameChar(c: char) {
    'a' <= c <= 'z' || '0' <= c <= '9' || c == '_' || c == '-'
  }

  predicate IsName(s: string) {
    0 < |s| <= 32 && forall i :: 0 <= i < |s| ==> IsNameChar(s[i])
  }

  /** Unicode lower-casing of one character may yield several; all that matters here is that it leaves
      lower-case letters, digits, underscores and hyphens alone. */
  ghost predicate LowerCasing(lower: char -> string) {
    forall c :: IsNameChar(c) ==> lower(c) == [c]
  }

  function Lowered(raw: string, lower: char -> string): string {
    if raw == [] then [] else lower(raw[0]) + Lowered(raw[1..], lower)
  }

  function Masked(s: string): string {
    seq(|s|, i requires 0 <= i < |s| => if IsNameChar(s[i]) then s[i] else '_')
  }

  function SanitizeName(raw: string, lower: char -> string): (name: string)
    ensures IsName(name)
  {
    var out := Masked(Lowered(raw, lower));
    var cut := if |out| > 32 then out[..32] else out;
    if cut == [] then "app" else cut
  }

  function FormatProjectId(name: string, id: UlidBytes, lower: char -> string): string {
    "prj_" + SanitizeName(name, lower) + "_" + Encode(id)
  }

  /** Splitting at the last occurrence of c. */
  function RSplitOnce(s: string, c: char): Option<(string, string)> {
    if s == [] then None
    else
      var init, last := s[..|s| - 1], s[|s| - 1];
      if last == c then Some((init, ""))
      else
        match RSplitOnce(init, c)
        case None => None
        case Some((a, b)) => Some((a, b + [last]))
  }

  function ParseProjectId(raw: string): Option<(string, UlidBytes)> {
    if !("prj_" <= raw) then None
    else
      match RSplitOnce(raw[4..], '_')
      case None => None
      case Some((name, ulid)) =>
        if !IsName(name) then None
        else
          match Decode(ulid)
          case None => None
          case Some(id) => Some((name, id))
  }

  // ---- Names ----

  lemma {:induction false} NamesLowerToThemselves(s: string, lower: char -> string)
    requires LowerCasing(lower) && forall i :: 0 <= i < |s| ==> IsNameChar(s[i])
    ensures Lowered(s, lower) == s
  {
    if s == [] {
    } else {
      NamesLowerToThemselves(s[1..], lower);
    }
  }

  /** Sanitised names, and only they, are fixed points: sanitising twice changes nothing. */
  lemma SanitizeFixedPoints(s: string, lower: char -> string)
    requires LowerCasing(lower)
    ensures SanitizeName(s, lower) == s <==> IsName(s)
    ensures SanitizeName(SanitizeName(s, lower), lower) == SanitizeName(s, lower)
  {
    var t := SanitizeName(s, lower);
    NamesLowerToThemselves(t, lower);
    assert Masked(t) == t;
    if IsName(s) {
      NamesLowerToThemselves(s, lower);
      assert Masked(s) == s;
    }
  }

  /** Where the characters of lower(raw[0]), lower(raw[1]) and so on start when they stand one after another. */
  predicate StartsOf(raw: string, lower: char -> string, starts: seq<nat>) {
    && |starts| == |raw| + 1 && starts[0] == 0
    && forall i :: 0 <= i < |raw| ==> starts[i + 1] == starts[i] + |lower(raw[i])|
  }

  lemma {:induction false} LoweredLength(raw: string, lower: char -> string, starts: seq<nat>)
    requires |starts| == |raw| + 1 && forall i :: 0 <= i < |raw| ==> starts[i + 1] == starts[i] + |lower(raw[i])|
    ensures starts[|raw|] == starts[0] + |Lowered(raw, lower)|
  {
    if raw == [] {
    } else {
      forall i | 0 <= i < |raw[1..]| ensures starts[1..][i + 1] == starts[1..][i] + |lower(raw[1..][i])| {
        assert raw[1..][i] == raw[i + 1];
      }
      LoweredLength(raw[1..], lower, starts[1..]);
    }
  }

  lemma {:induction false} LoweredAt(raw: string, lower: char -> string, starts: seq<nat>, i: nat, m: nat)
    requires |starts| == |raw| + 1 && forall i :: 0 <= i < |raw| ==> starts[i + 1] == starts[i] + |lower(raw[i])|
    requires i < |raw| && m < |lower(raw[i])|
    ensures starts[0] <= starts[i] && starts[i] - starts[0] + m < |Lowered(raw, lower)|
    ensures Lowered(raw, lower)[starts[i] - starts[0] + m] == lower(raw[i])[m]
    decreases i
  {
    if i == 0 {
    } else {
      forall k | 0 <= k < |raw[1..]| ensures starts[1..][k + 1] == starts[1..][k] + |lower(raw[1..][k])| {
        assert raw[1..][k] == raw[k + 1];
      }
      LoweredAt(raw[1..], lower, starts[1..], i - 1, m);
    }
  }

  /** Character by character: the m-th character of the lower-casing of raw[i] is kept at its place if it is
      a lower-case letter, a digit, an underscore or a hyphen, replaced by an underscore if not, and dropped
      beyond 32 characters. If nothing is left the name is app. */
  lemma SanitizeExact(raw: string, lower: char -> string, starts: seq<nat>)
    requires StartsOf(raw, lower, starts)
    ensures
      var name, total := SanitizeName(raw, lower), starts[|raw|];
      && (total == 0 ==> name == "app")
      && (total > 0 ==> |name| == if total < 32 then total else 32)
      && forall i, m :: 0 <= i < |raw| && 0 <= m < |lower(raw[i])| && starts[i] + m < 32 ==>
           var c := lower(raw[i])[m];
           && starts[i] + m < |name|
           && name[starts[i] + m] == if 'a' <= c <= 'z' || '0' <= c <= '9' || c == '_' || c == '-' then c else '_'
  {
    LoweredLength(raw, lower, starts);
    forall i, m | 0 <= i < |raw| && 0 <= m < |lower(raw[i])|
      ensures starts[i] + m < |Lowered(raw, lower)| && Lowered(raw, lower)[starts[i] + m] == lower(raw[i])[m]
    {
      LoweredAt(raw, lower, starts, i, m);
    }
  }

  /** When every character lowers to one: position by position. */
  lemma SanitizeOneToOne(raw: string, lower: char -> string)
    requires forall c :: |lower(c)| == 1
    ensures raw == "" ==> SanitizeName(raw, lower) == "app"
    ensures raw != "" ==>
      var name := SanitizeName(raw, lower);
      && |name| == (if |raw| < 32 then |raw| else 32)
      && forall i :: 0 <= i < |name| ==>
           var c := lower(raw[i])[0];
           name[i] == if 'a' <= c <= 'z' || '0' <= c <= '9' || c == '_' || c == '-' then c else '_'
  {
    var starts := seq(|raw| + 1, i => i);
    SanitizeExact(raw, lower, starts);
    var name := SanitizeName(raw, lower);
    if raw != "" {
      forall i | 0 <= i < |name|
        ensures
          var c := lower(raw[i])[0];
          name[i] == if 'a' <= c <= 'z' || '0' <= c <= '9' || c == '_' || c == '-' then c else '_'
      {
        assert starts[i] + 0 < |name|;
      }
    }
  }

  // ---- Splitting ----

  lemma {:induction false} RSplitJoined(a: string, b: string, c: char)
    requires c !in b
    ensures RSplitOnce(a + [c] + b, c) == Some((a, b))
  {
    var s := a + [c] + b;
    if b == [] {
      assert s[..|s| - 1] == a;
    } else {
      var init := b[..|b| - 1];
      assert s[..|s| - 1] == a + [c] + init;
      RSplitJoined(a, init, c);
      assert b == init + [b[|b| - 1]];
    }
  }

  lemma {:induction false} RSplitSound(s: string, c: char)
    ensures
      match RSplitOnce(s, c)
      case Some((a, b)) => s == a + [c] + b && c !in b
      case None => c !in s
  {
    if s == [] {
    } else {
      RSplitSound(s[..|s| - 1], c);
      assert s == s[..|s| - 1] + [s[|s| - 1]];
    }
  }

  lemma NoUnderscore(s: string)
    requires IsCrockford(s)
    ensures '_' !in s
  {
  }

  // ---- Main results ----

  lemma ParseJoined(name: string, ulid: string)
    requires IsName(name) && Decode(ulid).Some?
    ensures ParseProjectId("prj_" + name + "_" + ulid) == Some((name, Decode(ulid).value))
  {
    var s := "prj_" + name + "_" + ulid;
    NoUnderscore(ulid);
    assert s[4..] == name + ['_'] + ulid;
    RSplitJoined(name, ulid, '_');
  }

  /** Formatting then parsing gives the sanitised name and the same id. */
  lemma ParseFormat(name: string, id: UlidBytes, lower: char -> string)
    ensures ParseProjectId(FormatProjectId(name, id, lower)) == Some((SanitizeName(name, lower), id))
  {
    DecodeEncode(id);
    ParseJoined(SanitizeName(name, lower), Encode(id));
  }

  /** Accepted are exactly the strings made of the prefix, a name of 1 to 32 characters of the allowed set, an
      underscore and the text of the id; what is returned is that name and id. */
  lemma ParseIff(raw: string, name: string, id: UlidBytes)
    ensures ParseProjectId(raw) == Some((name, id)) <==>
      && raw == "prj_" + name + "_" + Encode(id) && 1 <= |name| <= 32
      && forall i :: 0 <= i < |name| ==> 'a' <= name[i] <= 'z' || '0' <= name[i] <= '9' || name[i] == '_' || name[i] == '-'
  {
    DecodeEncode(id);
    if ParseProjectId(raw) == Some((name, id)) {
      var name', ulid := SplitParts(raw);
      EncodeDecode(ulid);
    }
    if raw == "prj_" + name + "_" + Encode(id) && IsName(name) {
      ParseJoined(name, Encode(id));
    }
  }

  /** Any accepted string is reproduced by formatting what it parses to. */
  lemma FormatParse(raw: string, lower: char -> string)
    requires LowerCasing(lower) && ParseProjectId(raw).Some?
    ensures
      var (name, id) := ParseProjectId(raw).value;
      IsName(name) && FormatProjectId(name, id, lower) == raw
  {
    var name, ulid := SplitParts(raw);
    SanitizeFixedPoints(name, lower);
    EncodeDecode(ulid);
  }

  lemma AfterPrefix(raw: string, pre: string)
    requires pre <= raw
    ensures raw == pre + raw[|pre|..]
  {
    assert raw[..|pre|] == pre;
  }

  lemma Rejoin(raw: string, body: string, name: string, ulid: string)
    requires raw == "prj_" + body && body == name + ['_'] + ulid
    ensures raw == "prj_" + name + "_" + ulid
  {
    assert "prj_" + (name + "_" + ulid) == "prj_" + name + "_" + ulid;
  }

  lemma SplitParts(raw: string) returns (name: string, ulid: string)
    requires ParseProjectId(raw).Some?
    ensures raw == "prj_" + name + "_" + ulid
    ensures IsName(name) && Decode(ulid).Some? && ParseProjectId(raw) == Some((name, Decode(ulid).value))
  {
    var body := raw[4..];
    var parts := RSplitOnce(body, '_').value;
    name, ulid := parts.0, parts.1;
    RSplitSound(body, '_');
    AfterPrefix(raw, "prj_");
    Rejoin(raw, body, name, ulid);
  }
}
