/** JavaScript values and the character-level scans the relation matchers are built from. */
module JsText {

  /** A JavaScript value that is either `null` or a string. */
  datatype Nullable = Null | Str(value: string)

  datatype Option<T> = None | Some(value: T)

  /** The text a JavaScript template literal produces for `${v}`: `null` prints as "null". */
  function TemplateText(v: Nullable): (r: string)
  {
    match v
    case Null => "null"
    case Str(s) => s
  }

  /** The characters of the regular-expression class `\s` (white space and line terminators). */
  predicate IsSpace(c: char) {
    || c == ' ' || c == '\t' || c == '\n' || c == '\r' || c == '\U{B}' || c == '\U{C}'
    || c == '\U{A0}' || c == '\U{1680}' || ('\U{2000}' <= c <= '\U{200A}')
    || c == '\U{2028}' || c == '\U{2029}' || c == '\U{202F}' || c == '\U{205F}'
    || c == '\U{3000}' || c == '\U{FEFF}'
  }

  /** True when `lit` occurs in `s` starting at position `p`. */
  predicate LiteralAt(s: string, p: nat, lit: string) {
    p + |lit| <= |s| && s[p..p + |lit|] == lit
  }

  /** A greedy `\s*` starting at `i`: the first position at or after `i` that is not white space.
      That every character it skips is white space is `SkipSpaceSkipsSpace`. */
  function SkipSpace(s: string, i: nat): (j: nat)
    requires i <= |s|
    ensures i <= j <= |s|
    ensures j == |s| || !IsSpace(s[j])
    decreases |s| - i
  {
    if i < |s| && IsSpace(s[i]) then SkipSpace(s, i + 1) else i
  }

  /** Every character `SkipSpace` skips is white space. */
  lemma {:induction false} SkipSpaceSkipsSpace(s: string, i: nat)
    requires i <= |s|
    ensures forall k :: i <= k < SkipSpace(s, i) ==> IsSpace(s[k])
    decreases |s| - i
  {
    if i < |s| && IsSpace(s[i]) {
      SkipSpaceSkipsSpace(s, i + 1);
    }
  }

  /** A greedy `\.*` starting at `i`: the first position at or after `i` that is not a dot. */
  function SkipDots(s: string, i: nat): (j: nat)
    requires i <= |s|
    ensures i <= j <= |s|
    ensures j == |s| || s[j] != '.'
    decreases |s| - i
  {
    if i < |s| && s[i] == '.' then SkipDots(s, i + 1) else i
  }

  /** The first position at or after `i` that holds `c`, if any. */
  function IndexOf(s: string, c: char, i: nat): (r: Option<nat>)
    requires i <= |s|
    ensures r.Some? ==> i <= r.value < |s| && s[r.value] == c
    decreases |s| - i
  {
    if i == |s| then None
    else if s[i] == c then Some(i)
    else IndexOf(s, c, i + 1)
  }

  /** Nothing between `i` and the position `IndexOf` finds (or the end of the text) holds `c`. */
  lemma {:induction false} IndexOfIsFirst(s: string, c: char, i: nat)
    requires i <= |s|
    ensures forall k :: i <= k < (match IndexOf(s, c, i) case Some(j) => j case None => |s|) ==> s[k] != c
    decreases |s| - i
  {
    if i < |s| && s[i] != c {
      IndexOfIsFirst(s, c, i + 1);
    }
  }

  /** The text from `i` up to the first `c` holds no `c`. */
  lemma UpToIndexOfHasNone(s: string, c: char, i: nat)
    requires i <= |s| && IndexOf(s, c, i).Some?
    ensures forall k :: 0 <= k < |s[i..IndexOf(s, c, i).value]| ==> s[i..IndexOf(s, c, i).value][k] != c
  {
    IndexOfIsFirst(s, c, i);
    var t := s[i..IndexOf(s, c, i).value];
    forall k | 0 <= k < |t| ensures t[k] != c {
      assert t[k] == s[i + k];
    }
  }

  /** The last position at or after `lo` that holds `c`, if any. */
  function LastIndexOf(s: string, c: char, lo: nat): (r: Option<nat>)
    ensures r.Some? ==> lo <= r.value < |s| && s[r.value] == c
    decreases |s|
  {
    if |s| <= lo then None
    else if s[|s| - 1] == c then Some(|s| - 1)
    else LastIndexOf(s[..|s| - 1], c, lo)
  }

  /** Nothing after the position `LastIndexOf` finds holds `c`, and nothing from `lo` on when it
      finds none. */
  lemma {:induction false} LastIndexOfIsLast(s: string, c: char, lo: nat)
    ensures forall k :: (match LastIndexOf(s, c, lo) case Some(j) => j + 1 case None => lo) <= k < |s| ==> s[k] != c
    decreases |s|
  {
    if lo < |s| && s[|s| - 1] != c {
      var t := s[..|s| - 1];
      LastIndexOfIsLast(t, c, lo);
      assert forall k :: 0 <= k < |t| ==> t[k] == s[k];
    }
  }

  /** Characters that end a `[^,\)]*` run. */
  predicate IsArgumentEnd(c: char) {
    c == ',' || c == ')'
  }

  /** A greedy `[^,\)]*` starting at `i`: the first comma or closing parenthesis at or after `i`,
      or the end of the text (`ArgumentEndSkipsArgument`). */
  function ArgumentEnd(s: string, i: nat): (j: nat)
    requires i <= |s|
    ensures i <= j <= |s|
    ensures j == |s| || IsArgumentEnd(s[j])
    decreases |s| - i
  {
    if i < |s| && !IsArgumentEnd(s[i]) then ArgumentEnd(s, i + 1) else i
  }

  /** No character `ArgumentEnd` skips is a comma or a closing parenthesis. */
  lemma {:induction false} ArgumentEndSkipsArgument(s: string, i: nat)
    requires i <= |s|
    ensures forall k :: i <= k < ArgumentEnd(s, i) ==> !IsArgumentEnd(s[k])
    decreases |s| - i
  {
    if i < |s| && !IsArgumentEnd(s[i]) {
      ArgumentEndSkipsArgument(s, i + 1);
    }
  }
}
