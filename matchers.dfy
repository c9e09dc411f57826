/** The five regular expressions of the resolver (the frozen MATCHERS object), each written out as a
    scanner that follows the regular-expression engine's leftmost, greedy, backtracking search, and
    `capture`, which returns the first group of the leftmost match or null. */
module Matchers {
  import opened JsText

  /** The seven relation-forming verbs, in the order `_.values(RELATIONSHIP_TYPES)` lists them;
      this is also the order in which the alternation of MODEL_TO_NAME tries them. */
  const RelationshipTypes: seq<string> :=
    ["belongsTo", "belongsToMany", "hasOne", "hasMany", "morphOne", "morphTo", "morphMany"]

  const BelongsTo: string := "belongsTo"

  datatype Pattern =
    | InnerFunctionBlock  // /\)\s*{([\s\S]*)}/
    | RelationshipType    // /return\s*this\s*\.\s*([^\(]*)\s*\(/
    | Through             // /\.*through\s*\(/
    | ModelToName         // /(?:belongsTo|belongsToMany|...|morphMany)\s*\(([^,\)]*)/
    | ThroughModelName    // /\s*through\s*\(([^,\)]*)/

  /** A successful match: `s[start..end]` is the whole match and `s[groupStart..groupEnd]` is group 1.
      THROUGH has no group; its match records an empty one at its end. */
  datatype Match = Match(start: nat, end: nat, groupStart: nat, groupEnd: nat)

  predicate WellFormed(s: string, m: Match) {
    m.start <= m.groupStart <= m.groupEnd <= m.end <= |s|
  }

  /** `(` at position `a`: the opening parenthesis of a call. */
  predicate OpensCall(s: string, a: nat) {
    a < |s| && s[a] == '('
  }

  /** `{` at position `a`: the opening brace of a block. */
  predicate OpensBlock(s: string, a: nat) {
    a < |s| && s[a] == '{'
  }

  /** `.` at position `a`. */
  predicate IsDot(s: string, a: nat) {
    a < |s| && s[a] == '.'
  }

  /** Where `lit\s*` at `p` ends: past the literal and the white space after it. */
  function AfterLiteral(s: string, p: nat, lit: string): (j: nat)
    requires LiteralAt(s, p, lit)
    ensures p + |lit| <= j <= |s|
  {
    SkipSpace(s, p + |lit|)
  }

  /** `verb\s*\(` at `p`. */
  predicate VerbCall(s: string, p: nat, verb: string)
    requires p <= |s|
  {
    LiteralAt(s, p, verb) && OpensCall(s, SkipSpace(s, p + |verb|))
  }

  /** The position just after the `(` of the call `verb\s*\(` at `p`. */
  function CallArgumentStart(s: string, p: nat, verb: string): (o: nat)
    requires p <= |s| && VerbCall(s, p, verb)
    ensures p < o <= |s| && s[o - 1] == '('
  {
    SkipSpace(s, p + |verb|) + 1
  }

  /** `through\s*\(` at `q`. */
  predicate ThroughCall(s: string, q: nat)
    requires q <= |s|
  {
    VerbCall(s, q, "through")
  }

  /** The alternation `(?:v0|v1|...)\s*\(` at `p`, trying the verbs from index `i` on: the index of
      the first verb, in list order, that is followed by white space and `(`. */
  function FirstVerbCall(s: string, p: nat, verbs: seq<string>, i: nat): (r: Option<nat>)
    requires p <= |s| && i <= |verbs|
    ensures r.Some? ==> i <= r.value < |verbs| && VerbCall(s, p, verbs[r.value])
    ensures r.Some? ==> forall j :: i <= j < r.value ==> !VerbCall(s, p, verbs[j])
    ensures r.None? ==> forall j :: i <= j < |verbs| ==> !VerbCall(s, p, verbs[j])
    decreases |verbs| - i
  {
    if i == |verbs| then None
    else if VerbCall(s, p, verbs[i]) then Some(i)
    else FirstVerbCall(s, p, verbs, i + 1)
  }

  /** `\)\s*{([\s\S]*)}` at `p`: it matches when `)`, white space and `{` occur at `p` and some
      `}` follows; the greedy `[\s\S]*` then runs to the LAST `}` of the text. */
  function InnerFunctionBlockAt(s: string, p: nat): (r: Option<Match>)
    requires p <= |s|
    ensures r.Some? <==> (p < |s| && s[p] == ')' && OpensBlock(s, SkipSpace(s, p + 1))
      && exists k :: SkipSpace(s, p + 1) < k < |s| && s[k] == '}')
    ensures r.Some? ==> r.value.start == p && WellFormed(s, r.value)
    ensures r.Some? ==> r.value.groupStart == SkipSpace(s, p + 1) + 1 && r.value.end == r.value.groupEnd + 1
    ensures r.Some? ==> s[r.value.groupEnd] == '}'
  {
    if p < |s| && s[p] == ')' then
      var j := SkipSpace(s, p + 1);
      if OpensBlock(s, j) then
        (match LastIndexOf(s, '}', j + 1)
         case Some(k) => Some(Match(p, k + 1, j + 1, k))
         case None => LastIndexOfIsLast(s, '}', j + 1); None)
      else None
    else None
  }

  /** `return\s*this\s*\.` at `p`. */
  predicate ReturnThisDotAt(s: string, p: nat)
    requires p <= |s|
  {
    LiteralAt(s, p, "return") && LiteralAt(s, AfterLiteral(s, p, "return"), "this")
    && IsDot(s, AfterLiteral(s, AfterLiteral(s, p, "return"), "this"))
  }

  /** Where the group of RELATIONSHIP_TYPE at `p` starts: past `return\s*this\s*\.\s*`. */
  function TypeNameStart(s: string, p: nat): (c: nat)
    requires p <= |s| && ReturnThisDotAt(s, p)
    ensures p < c <= |s|
  {
    SkipSpace(s, AfterLiteral(s, AfterLiteral(s, p, "return"), "this") + 1)
  }

  /** `return\s*this\s*\.\s*([^\(]*)\s*\(` at `p`: it matches when `return`, `this` and a dot, each
      after white space, are followed by some `(`. The group starts past the white space after the
      dot, and the greedy `[^\(]*` runs to the first `(`, where `\s*\(` matches; white space
      before that `(` stays in the group. */
  function RelationshipTypeAt(s: string, p: nat): (r: Option<Match>)
    requires p <= |s|
    ensures r.Some? <==> ReturnThisDotAt(s, p) && exists d :: TypeNameStart(s, p) <= d < |s| && s[d] == '('
    ensures r.Some? ==> r.value.start == p && WellFormed(s, r.value)
    ensures r.Some? ==> r.value.groupStart == TypeNameStart(s, p)
    ensures r.Some? ==> r.value.end == r.value.groupEnd + 1 && s[r.value.groupEnd] == '('
  {
    if ReturnThisDotAt(s, p) then
      var c := TypeNameStart(s, p);
      (match IndexOf(s, '(', c)
       case Some(d) => Some(Match(p, d + 1, c, d))
       case None => IndexOfIsFirst(s, '(', c); None)
    else None
  }

  /** The block INNER_FUNCTION_BLOCK matches ends at the last `}` of the text. */
  lemma InnerFunctionBlockEndsAtLastBrace(s: string, p: nat)
    requires p <= |s| && InnerFunctionBlockAt(s, p).Some?
    ensures forall k :: InnerFunctionBlockAt(s, p).value.end <= k < |s| ==> s[k] != '}'
  {
    LastIndexOfIsLast(s, '}', SkipSpace(s, p + 1) + 1);
  }

  /** Only white space lies between the `)` and the `{` of an INNER_FUNCTION_BLOCK match. */
  lemma InnerFunctionBlockSkipsSpace(s: string, p: nat)
    requires p <= |s| && InnerFunctionBlockAt(s, p).Some?
    ensures forall k :: p < k < InnerFunctionBlockAt(s, p).value.groupStart - 1 ==> IsSpace(s[k])
  {
    SkipSpaceSkipsSpace(s, p + 1);
  }

  /** The group RELATIONSHIP_TYPE captures holds no `(`: it is everything up to the first one. */
  lemma RelationshipTypeGroupStopsAtParen(s: string, p: nat)
    requires p <= |s| && RelationshipTypeAt(s, p).Some?
    ensures forall k :: RelationshipTypeAt(s, p).value.groupStart <= k < RelationshipTypeAt(s, p).value.groupEnd ==>
      s[k] != '('
  {
    IndexOfIsFirst(s, '(', TypeNameStart(s, p));
  }

  /** `\.*through\s*\(` at `p` (no group). */
  function ThroughAt(s: string, p: nat): (r: Option<Match>)
    requires p <= |s|
    ensures r.Some? <==> ThroughCall(s, SkipDots(s, p))
    ensures r.Some? ==> r.value.start == p && WellFormed(s, r.value)
  {
    var q := SkipDots(s, p);
    if ThroughCall(s, q) then
      var e := CallArgumentStart(s, q, "through");
      Some(Match(p, e, e, e))
    else None
  }

  /** `(?:belongsTo|...|morphMany)\s*\(([^,\)]*)` at `p`: the group starts after the `(` of the
      first verb that is followed by white space and `(`, and runs to the next comma or `)`. */
  function ModelToNameAt(s: string, p: nat): (r: Option<Match>)
    requires p <= |s|
    ensures r.Some? <==> FirstVerbCall(s, p, RelationshipTypes, 0).Some?
    ensures r.Some? ==> r.value.start == p && WellFormed(s, r.value)
    ensures r.Some? ==> p < r.value.groupStart && s[r.value.groupStart - 1] == '('
    ensures r.Some? ==>
      r.value.groupStart == CallArgumentStart(s, p, RelationshipTypes[FirstVerbCall(s, p, RelationshipTypes, 0).value])
    ensures r.Some? ==> r.value.groupEnd == ArgumentEnd(s, r.value.groupStart)
  {
    match FirstVerbCall(s, p, RelationshipTypes, 0)
    case Some(i) =>
      var o := CallArgumentStart(s, p, RelationshipTypes[i]);
      var e := ArgumentEnd(s, o);
      Some(Match(p, e, o, e))
    case None => None
  }

  /** `\s*through\s*\(([^,\)]*)` at `p`. */
  function ThroughModelNameAt(s: string, p: nat): (r: Option<Match>)
    requires p <= |s|
    ensures r.Some? <==> ThroughCall(s, SkipSpace(s, p))
    ensures r.Some? ==> r.value.start == p && WellFormed(s, r.value)
    ensures r.Some? ==> r.value.groupStart == CallArgumentStart(s, SkipSpace(s, p), "through")
    ensures r.Some? ==> r.value.groupEnd == ArgumentEnd(s, r.value.groupStart)
  {
    var q := SkipSpace(s, p);
    if ThroughCall(s, q) then
      var o := CallArgumentStart(s, q, "through");
      var e := ArgumentEnd(s, o);
      Some(Match(p, e, o, e))
    else None
  }

  /** The match of `pat` that starts exactly at `p`, if there is one. */
  function MatchAt(s: string, p: nat, pat: Pattern): (r: Option<Match>)
    requires p <= |s|
    ensures r.Some? ==> r.value.start == p && WellFormed(s, r.value)
  {
    match pat
    case InnerFunctionBlock => InnerFunctionBlockAt(s, p)
    case RelationshipType => RelationshipTypeAt(s, p)
    case Through => ThroughAt(s, p)
    case ModelToName => ModelToNameAt(s, p)
    case ThroughModelName => ThroughModelNameAt(s, p)
  }

  /** The first position, from `from` on, whose attempt succeeded. */
  function Leftmost(attempts: seq<Option<Match>>, from: nat): (r: Option<nat>)
    requires from <= |attempts|
    ensures r.Some? ==> from <= r.value < |attempts| && attempts[r.value].Some?
    ensures r.Some? ==> forall q :: from <= q < r.value ==> attempts[q].None?
    ensures r.None? ==> forall q :: from <= q < |attempts| ==> attempts[q].None?
    decreases |attempts| - from
  {
    if from == |attempts| then None
    else if attempts[from].Some? then Some(from)
    else Leftmost(attempts, from + 1)
  }

  /** The leftmost match of `pat` starting at or after `from`: the engine tries each position in
      turn and stops at the first that matches. */
  function Exec(s: string, pat: Pattern, from: nat): (r: Option<Match>)
    requires from <= |s|
    ensures r.Some? ==> from <= r.value.start <= |s| && MatchAt(s, r.value.start, pat) == r
    ensures r.Some? ==> forall q :: from <= q < r.value.start ==> MatchAt(s, q, pat).None?
    ensures r.None? ==> forall q :: from <= q <= |s| ==> MatchAt(s, q, pat).None?
  {
    var attempts := seq(|s| + 1, p requires 0 <= p <= |s| => MatchAt(s, p, pat));
    assert forall q :: 0 <= q <= |s| ==> attempts[q] == MatchAt(s, q, pat);
    match Leftmost(attempts, from)
    case None => None
    case Some(p) => attempts[p]
  }

  /** `pat.test(s)`. */
  predicate Test(s: string, pat: Pattern) {
    Exec(s, pat, 0).Some?
  }

  /** The text of group 1 of a well-formed match. */
  function Group(s: string, m: Match): (g: string)
    requires WellFormed(s, m)
  {
    s[m.groupStart..m.groupEnd]
  }

  /** `capture(str, matcher)`: null exactly when the pattern matches at no position, and otherwise
      group 1 of the match at the first position where it matches. */
  function Capture(s: string, pat: Pattern): (r: Nullable)
    requires pat != Through
    ensures r.Null? <==> forall p :: 0 <= p <= |s| ==> MatchAt(s, p, pat).None?
    ensures r.Str? ==>
      exists p :: 0 <= p <= |s| && MatchAt(s, p, pat).Some?
        && r.value == Group(s, MatchAt(s, p, pat).value)
        && forall q :: 0 <= q < p ==> MatchAt(s, q, pat).None?
  {
    match Exec(s, pat, 0)
    case Some(m) =>
      assert MatchAt(s, m.start, pat) == Some(m);
      Str(Group(s, m))
    case None => Null
  }

  /** The text as JavaScript converts the array returned by `String.prototype.match` to a string:
      the whole match and group 1 joined by a comma. */
  function MatchArrayText(s: string, m: Match): (r: string)
    requires WellFormed(s, m)
    ensures |r| == (m.end - m.start) + 1 + (m.groupEnd - m.groupStart)
    ensures r[..m.end - m.start] == s[m.start..m.end]
    ensures r[m.end - m.start] == ','
    ensures r[m.end - m.start + 1..] == Group(s, m)
  {
    s[m.start..m.end] + "," + s[m.groupStart..m.groupEnd]
  }

  /** Character by character: the whole match first, then, past the comma, group 1. */
  lemma MatchArrayTextChars(s: string, m: Match)
    requires WellFormed(s, m)
    ensures forall k :: 0 <= k < m.end - m.start ==> MatchArrayText(s, m)[k] == s[m.start + k]
    ensures m.groupStart < m.groupEnd ==> MatchArrayText(s, m)[m.end - m.start + 1] == s[m.groupStart]
  {
  }

  // ---------------------------------------------------------------------------------------------
  // What the searches mean

  /** A pattern tests true exactly when it matches at some position. */
  lemma TestIffSomeMatch(s: string, pat: Pattern)
    ensures Test(s, pat) <==> exists p :: 0 <= p <= |s| && MatchAt(s, p, pat).Some?
  {
    if Test(s, pat) {
      var p := Exec(s, pat, 0).value.start;
      assert MatchAt(s, p, pat).Some?;
    }
  }

  /** `capture` is group 1 of what `Exec` finds, or null when it finds nothing. */
  lemma CaptureOfExec(s: string, pat: Pattern)
    requires pat != Through
    ensures Capture(s, pat) ==
      match Exec(s, pat, 0)
      case None => Null
      case Some(m) => Str(Group(s, m))
  {
  }

  /** A literal that occurs at `p` starts with the character at `p`. */
  lemma LiteralAtHead(s: string, p: nat, lit: string)
    requires LiteralAt(s, p, lit) && lit != []
    ensures p < |s| && s[p] == lit[0]
  {
    assert s[p..p + |lit|][0] == s[p];
  }

  /** THROUGH's leading `\.*` does not change whether it matches: it tests true exactly when
      `through\s*\(` occurs somewhere in the text. */
  lemma ThroughTestIffCall(s: string)
    ensures Test(s, Through) <==> exists q :: 0 <= q <= |s| && ThroughCall(s, q)
  {
    TestIffSomeMatch(s, Through);
    forall q | 0 <= q <= |s| && ThroughCall(s, q) ensures MatchAt(s, q, Through).Some? {
      LiteralAtHead(s, q, "through");
      assert SkipDots(s, q) == q;
    }
    forall p | 0 <= p <= |s| && MatchAt(s, p, Through).Some? ensures ThroughCall(s, SkipDots(s, p)) {
    }
  }

  /** THROUGH_MODEL_NAME's leading `\s*` does not change whether it matches. */
  lemma ThroughModelNameTestIffCall(s: string)
    ensures Test(s, ThroughModelName) <==> exists q :: 0 <= q <= |s| && ThroughCall(s, q)
  {
    TestIffSomeMatch(s, ThroughModelName);
    forall q | 0 <= q <= |s| && ThroughCall(s, q) ensures MatchAt(s, q, ThroughModelName).Some? {
      LiteralAtHead(s, q, "through");
      assert SkipSpace(s, q) == q;
    }
    forall p | 0 <= p <= |s| && MatchAt(s, p, ThroughModelName).Some?
      ensures ThroughCall(s, SkipSpace(s, p))
    {
    }
  }

  /** The two through-matchers agree: `through` is true exactly when a through-model name is
      captured. */
  lemma ThroughAgreesWithThroughModelName(s: string)
    ensures Test(s, Through) <==> Capture(s, ThroughModelName).Str?
  {
    ThroughTestIffCall(s);
    ThroughModelNameTestIffCall(s);
  }

  /** The argument text of a call whose `(` ends just before `o`: up to (not including) the first
      comma or closing parenthesis, or to the end of the text. */
  function ArgumentFrom(s: string, o: nat): (arg: string)
    requires o <= |s|
  {
    s[o..ArgumentEnd(s, o)]
  }

  /** An argument text holds no comma and no `)`. */
  lemma ArgumentFromHasNoArgumentEnd(s: string, o: nat)
    requires o <= |s|
    ensures forall k :: 0 <= k < |ArgumentFrom(s, o)| ==> !IsArgumentEnd(ArgumentFrom(s, o)[k])
  {
    ArgumentEndSkipsArgument(s, o);
    var g := ArgumentFrom(s, o);
    forall k | 0 <= k < |g| ensures !IsArgumentEnd(g[k]) {
      assert g[k] == s[o + k];
    }
  }

  /** The argument of the `through\s*\(` call at `q`. */
  function ThroughArgument(s: string, q: nat): (arg: string)
    requires q <= |s| && ThroughCall(s, q)
  {
    ArgumentFrom(s, CallArgumentStart(s, q, "through"))
  }

  /** `through\s*\(` cannot start on white space. */
  lemma NoThroughCallOnSpace(s: string, q: nat)
    requires q < |s| && IsSpace(s[q])
    ensures !ThroughCall(s, q)
  {
    if LiteralAt(s, q, "through") {
      LiteralAtHead(s, q, "through");
    }
  }

  /** Any position where `through\s*\(` occurs is where the match of THROUGH_MODEL_NAME may start. */
  lemma ThroughCallStartsMatch(s: string, q: nat)
    requires q <= |s| && ThroughCall(s, q)
    ensures SkipSpace(s, q) == q && MatchAt(s, q, ThroughModelName).Some?
  {
    LiteralAtHead(s, q, "through");
  }

  /** The first position at or after `from` where `through\s*\(` occurs. */
  function FirstThroughCall(s: string, from: nat): (r: Option<nat>)
    requires from <= |s|
    ensures r.Some? ==> from <= r.value <= |s| && ThroughCall(s, r.value)
    ensures r.Some? ==> forall q :: from <= q < r.value ==> !ThroughCall(s, q)
    ensures r.None? ==> forall q :: from <= q <= |s| ==> !ThroughCall(s, q)
    decreases |s| - from
  {
    if ThroughCall(s, from) then Some(from)
    else if from == |s| then None
    else FirstThroughCall(s, from + 1)
  }

  /** Before the leftmost match of THROUGH_MODEL_NAME there is no `through\s*\(`. */
  lemma NoThroughCallBeforeMatch(s: string, m: Match)
    requires Exec(s, ThroughModelName, 0) == Some(m)
    ensures forall q :: 0 <= q < m.start ==> !ThroughCall(s, q)
  {
    forall q | 0 <= q < m.start ensures !ThroughCall(s, q) {
      if ThroughCall(s, q) {
        ThroughCallStartsMatch(s, q);
      }
    }
  }

  /** Nor is there one inside the white space that the match's `\s*` skips. */
  lemma NoThroughCallInSpace(s: string, p: nat)
    requires p <= |s|
    ensures forall q :: p <= q < SkipSpace(s, p) ==> !ThroughCall(s, q)
  {
    SkipSpaceSkipsSpace(s, p);
    forall q | p <= q < SkipSpace(s, p) ensures !ThroughCall(s, q) {
      NoThroughCallOnSpace(s, q);
    }
  }

  /** A `through\s*\(` with none before it (from `from` on) is the first one. */
  lemma FirstThroughCallIs(s: string, from: nat, q: nat)
    requires from <= q <= |s| && ThroughCall(s, q)
    requires forall p :: from <= p < q ==> !ThroughCall(s, p)
    ensures FirstThroughCall(s, from) == Some(q)
  {
    var r := FirstThroughCall(s, from);
    assert r.Some?;
    assert !(r.value < q);
    assert !(q < r.value);
  }

  /** Where the leftmost match of THROUGH_MODEL_NAME starts, white space aside, the first
      `through\s*\(` of the text occurs. */
  lemma ThroughModelNameMatchFindsFirstCall(s: string, m: Match)
    requires Exec(s, ThroughModelName, 0) == Some(m)
    ensures FirstThroughCall(s, 0) == Some(SkipSpace(s, m.start))
  {
    ThroughModelNameCaptureAt(s, m);
    var q := SkipSpace(s, m.start);
    NoThroughCallBeforeMatch(s, m);
    NoThroughCallInSpace(s, m.start);
    assert forall p :: 0 <= p < q ==> !ThroughCall(s, p);
    FirstThroughCallIs(s, 0, q);
  }

  /** The leftmost THROUGH_MODEL_NAME match and its capture. */
  lemma ThroughModelNameCaptureAt(s: string, m: Match)
    requires Exec(s, ThroughModelName, 0) == Some(m)
    ensures ThroughModelNameAt(s, m.start) == Some(m)
    ensures ThroughCall(s, SkipSpace(s, m.start))
    ensures Capture(s, ThroughModelName) == Str(ThroughArgument(s, SkipSpace(s, m.start)))
  {
    assert MatchAt(s, m.start, ThroughModelName) == Some(m);
    assert Capture(s, ThroughModelName) == Str(Group(s, m));
  }

  /** THROUGH_MODEL_NAME captures the argument of the FIRST `through\s*\(` of the text, and is null
      when there is none: its leading `\s*` only moves where the match starts. */
  lemma ThroughModelNameIsFirstThroughArgument(s: string)
    ensures Capture(s, ThroughModelName) ==
      match FirstThroughCall(s, 0)
      case None => Null
      case Some(q) => Str(ThroughArgument(s, q))
  {
    match Exec(s, ThroughModelName, 0)
    case None =>
      ThroughModelNameTestIffCall(s);
      assert FirstThroughCall(s, 0).None?;
    case Some(m) =>
      ThroughModelNameMatchFindsFirstCall(s, m);
      ThroughModelNameCaptureAt(s, m);
  }

  /** MODEL_TO_NAME is null exactly when no verb followed by white space and `(` occurs. */
  lemma ModelToNameNullIffNoVerbCall(s: string)
    ensures Capture(s, ModelToName).Null? <==>
      forall p, i :: 0 <= p <= |s| && 0 <= i < |RelationshipTypes| ==> !VerbCall(s, p, RelationshipTypes[i])
  {
    TestIffSomeMatch(s, ModelToName);
    if Capture(s, ModelToName).Str? {
      var p :| 0 <= p <= |s| && MatchAt(s, p, ModelToName).Some?;
      assert FirstVerbCall(s, p, RelationshipTypes, 0).Some?;
    } else {
      forall p, i | 0 <= p <= |s| && 0 <= i < |RelationshipTypes|
        ensures !VerbCall(s, p, RelationshipTypes[i])
      {
        assert MatchAt(s, p, ModelToName).None?;
      }
    }
  }

  /** A RELATIONSHIP_TYPE match at `p` starts with `r` and has a `(` after `p`. */
  lemma RelationshipTypeNeedsLaterParen(s: string, p: nat)
    requires p <= |s|
    ensures RelationshipTypeAt(s, p).Some? ==> p < |s| && s[p] == 'r' && exists d :: p < d < |s| && s[d] == '('
  {
    if RelationshipTypeAt(s, p).Some? {
      LiteralAtHead(s, p, "return");
    }
  }

  /** The leftmost RELATIONSHIP_TYPE match and its capture. */
  lemma RelationshipTypeCaptureAt(s: string)
    requires Capture(s, RelationshipType).Str?
    ensures var m := Exec(s, RelationshipType, 0).value;
      && ReturnThisDotAt(s, m.start)
      && IndexOf(s, '(', TypeNameStart(s, m.start)).Some?
      && Capture(s, RelationshipType).value ==
           s[TypeNameStart(s, m.start)..IndexOf(s, '(', TypeNameStart(s, m.start)).value]
  {
    CaptureOfExec(s, RelationshipType);
    var m := Exec(s, RelationshipType, 0).value;
    assert RelationshipTypeAt(s, m.start) == Some(m);
  }

  /** RELATIONSHIP_TYPE's capture, the record's `type`, is the text of the leftmost match from past
      `return\s*this\s*\.\s*` up to the first `(` after it, one of the seven verbs or not; so it holds
      no `(`. */
  lemma RelationshipTypeHasNoParen(s: string)
    requires Capture(s, RelationshipType).Str?
    ensures var m := Exec(s, RelationshipType, 0).value;
      && ReturnThisDotAt(s, m.start)
      && IndexOf(s, '(', TypeNameStart(s, m.start)).Some?
      && Capture(s, RelationshipType).value ==
           s[TypeNameStart(s, m.start)..IndexOf(s, '(', TypeNameStart(s, m.start)).value]
    ensures forall k :: 0 <= k < |Capture(s, RelationshipType).value| ==> Capture(s, RelationshipType).value[k] != '('
  {
    RelationshipTypeCaptureAt(s);
    var m := Exec(s, RelationshipType, 0).value;
    UpToIndexOfHasNone(s, '(', TypeNameStart(s, m.start));
  }

  /** The leftmost MODEL_TO_NAME match and its capture. */
  lemma ModelToNameCaptureAt(s: string)
    requires Capture(s, ModelToName).Str?
    ensures ModelToNameAt(s, Exec(s, ModelToName, 0).value.start) == Exec(s, ModelToName, 0)
    ensures Capture(s, ModelToName).value ==
      ArgumentFrom(s, Exec(s, ModelToName, 0).value.groupStart)
  {
    CaptureOfExec(s, ModelToName);
    var m := Exec(s, ModelToName, 0).value;
    assert ModelToNameAt(s, m.start) == Some(m);
  }

  /** MODEL_TO_NAME's capture holds no comma and no `)`: further arguments are never part of it. */
  lemma ModelToNameHasNoArgumentEnd(s: string)
    requires Capture(s, ModelToName).Str?
    ensures forall k :: 0 <= k < |Capture(s, ModelToName).value| ==> !IsArgumentEnd(Capture(s, ModelToName).value[k])
  {
    ModelToNameCaptureAt(s);
    ArgumentFromHasNoArgumentEnd(s, Exec(s, ModelToName, 0).value.groupStart);
  }

  /** MODEL_TO_NAME captures the first argument of the leftmost verb call: the text right after its
      `(`, up to the first comma or closing parenthesis. */
  lemma ModelToNameIsFirstArgument(s: string)
    requires Capture(s, ModelToName).Str?
    ensures exists p :: (0 <= p <= |s| && ModelToNameAt(s, p).Some?
      && Capture(s, ModelToName).value == ArgumentFrom(s, ModelToNameAt(s, p).value.groupStart)
      && (forall q :: 0 <= q < p ==> ModelToNameAt(s, q).None?))
  {
    ModelToNameCaptureAt(s);
    var p := Exec(s, ModelToName, 0).value.start;
    forall q | 0 <= q < p ensures ModelToNameAt(s, q).None? {
      assert MatchAt(s, q, ModelToName).None?;
    }
  }
}
