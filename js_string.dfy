/*
 * The two ECMAScript string built-ins that the view engine relies on,
 * restricted to a string search pattern and a string replacement:
 * ECMA-262's StringIndexOf operation and String.prototype.replace with its
 * GetSubstitution step (cited by name, since section numbers vary between
 * editions).
 * Beside them, ReplaceFirst is a literal first-occurrence splice that serves
 * as an independent reference definition.
 */
module JsString {

  datatype Option<T> = None | Some(value: T)

  /** `pat` occurs in `s` starting at index `i`. */
  predicate OccursAt(s: string, pat: string, i: nat)
  {
    i + |pat| <= |s| && s[i..i + |pat|] == pat
  }

  /** `pat` occurs nowhere in `s`. */
  ghost predicate Absent(s: string, pat: string)
  {
    forall i: nat :: !OccursAt(s, pat, i)
  }

  /** `p` is the leftmost index at which `pat` occurs in `s`. */
  ghost predicate FirstOccurrence(s: string, pat: string, p: nat)
  {
    OccursAt(s, pat, p) && forall j: nat :: j < p ==> !OccursAt(s, pat, j)
  }

  /** StringIndexOf(s, pat, from): the first index at or after `from` where
      `pat` occurs, or None where the built-in answers "not found". */
  function IndexOfFrom(s: string, pat: string, from: nat): (r: Option<nat>)
    ensures r.Some? ==> from <= r.value && OccursAt(s, pat, r.value)
    ensures r.Some? ==> forall j: nat :: from <= j < r.value ==> !OccursAt(s, pat, j)
    ensures r.None? ==> forall j: nat :: from <= j ==> !OccursAt(s, pat, j)
    decreases |s| - from
  {
    if from + |pat| > |s| then None
    else if s[from..from + |pat|] == pat then Some(from)
    else IndexOfFrom(s, pat, from + 1)
  }

  /** The search String.prototype.replace starts with: StringIndexOf(s, pat, 0). */
  function IndexOf(s: string, pat: string): (r: Option<nat>)
    ensures r.None? <==> Absent(s, pat)
    ensures r.Some? ==> FirstOccurrence(s, pat, r.value)
  {
    IndexOfFrom(s, pat, 0)
  }

  /** The leftmost occurrence is unique, so IndexOf finds exactly it. */
  lemma IndexOfIsFirst(s: string, pat: string, p: nat)
    requires FirstOccurrence(s, pat, p)
    ensures IndexOf(s, pat) == Some(p)
  {
  }

  /** GetSubstitution(matched, str, position, « », undefined, template):
      expands the `$`-patterns of a replacement template for a match of
      `matched` at `position` in `str`. With a string search pattern there
      are no captures and no named groups, so `$n`, `$nn` and `$<` stand for
      themselves; only `$$`, `` $` ``, `$&` and `$'` are replaced. */
  function GetSubstitution(matched: string, str: string, position: nat, template: string): (r: string)
    requires position <= |str|
    ensures '$' !in template ==> r == template
    decreases |template|
  {
    if template == [] then []
    else if template[0] == '$' && |template| >= 2 && template[1] == '$' then
      "$" + GetSubstitution(matched, str, position, template[2..])
    else if template[0] == '$' && |template| >= 2 && template[1] == '`' then
      str[..position] + GetSubstitution(matched, str, position, template[2..])
    else if template[0] == '$' && |template| >= 2 && template[1] == '&' then
      matched + GetSubstitution(matched, str, position, template[2..])
    else if template[0] == '$' && |template| >= 2 && template[1] == '\'' then
      var tailPos := if position + |matched| <= |str| then position + |matched| else |str|;
      str[tailPos..] + GetSubstitution(matched, str, position, template[2..])
    else
      assert '$' !in template ==> '$' !in template[1..] by {
        if '$' in template[1..] {
          var k :| 0 <= k < |template[1..]| && template[1..][k] == '$';
          assert template[k + 1] == '$';
        }
      }
      [template[0]] + GetSubstitution(matched, str, position, template[1..])
  }

  /** String.prototype.replace(pat, replacement) with a string `pat` and a
      string `replacement`: the first occurrence of `pat` is replaced by the
      expansion of `replacement`; with no occurrence, `s` is returned. */
  function Replace(s: string, pat: string, replacement: string): (r: string)
    ensures Absent(s, pat) ==> r == s
    ensures forall p: nat :: FirstOccurrence(s, pat, p) ==>
              r == s[..p] + GetSubstitution(pat, s, p, replacement) + s[p + |pat|..]
  {
    match IndexOf(s, pat)
    case None => s
    case Some(p) => s[..p] + GetSubstitution(pat, s, p, replacement) + s[p + |pat|..]
  }

  /** For a replacement without `$`, String.prototype.replace puts the
      replacement text itself in place of the first occurrence. */
  lemma ReplaceDollarFree(s: string, pat: string, rep: string, p: nat)
    requires FirstOccurrence(s, pat, p) && '$' !in rep
    ensures Replace(s, pat, rep) == s[..p] + rep + s[p + |pat|..]
    ensures |Replace(s, pat, rep)| == |s| - |pat| + |rep|
  {
  }

  /** String.prototype.replace leaves every later occurrence that does not
      overlap the first one intact, shifted by as much as the string grew. */
  lemma ReplaceKeepsLaterOccurrences(s: string, pat: string, rep: string, p: nat, j: nat)
    requires FirstOccurrence(s, pat, p) && p + |pat| <= j && OccursAt(s, pat, j)
    ensures OccursAt(Replace(s, pat, rep), pat, j + |Replace(s, pat, rep)| - |s|)
  {
    var r, expanded := Replace(s, pat, rep), GetSubstitution(pat, s, p, rep);
    assert r == s[..p] + expanded + s[p + |pat|..];
    assert j + |r| - |s| == j - |pat| + |expanded|;
    SpliceKeepsLaterOccurrences(s, pat, expanded, p, j);
  }

  /** A literal splice of `rep` in place of the first occurrence of `pat`,
      defined by scanning `s` from the left. */
  function ReplaceFirst(s: string, pat: string, rep: string): (r: string)
    decreases |s|
  {
    if |pat| <= |s| && s[..|pat|] == pat then rep + s[|pat|..]
    else if s == [] then []
    else [s[0]] + ReplaceFirst(s[1..], pat, rep)
  }

  /** Dropping the first character shifts every occurrence one place left. */
  lemma OccursAtTail(s: string, pat: string, i: nat)
    requires s != []
    ensures OccursAt(s[1..], pat, i) <==> OccursAt(s, pat, i + 1)
  {
  }

  /** With no occurrence of `pat`, ReplaceFirst returns `s` unchanged. */
  lemma {:induction false} ReplaceFirstAbsent(s: string, pat: string, rep: string)
    requires Absent(s, pat)
    ensures ReplaceFirst(s, pat, rep) == s
    decreases |s|
  {
    assert !OccursAt(s, pat, 0);
    if s != [] {
      forall i: nat ensures !OccursAt(s[1..], pat, i) {
        OccursAtTail(s, pat, i);
      }
      ReplaceFirstAbsent(s[1..], pat, rep);
    }
  }

  /** With a first occurrence at `p`, ReplaceFirst keeps the text before it,
      puts `rep` in its place and keeps everything after it. */
  lemma {:induction false} ReplaceFirstSplice(s: string, pat: string, rep: string, p: nat)
    requires FirstOccurrence(s, pat, p)
    ensures ReplaceFirst(s, pat, rep) == s[..p] + rep + s[p + |pat|..]
    decreases p
  {
    if p == 0 {
      assert s[..|pat|] == pat;
    } else {
      var t := s[1..];
      assert !OccursAt(s, pat, 0);
      OccursAtTail(s, pat, p - 1);
      forall j: nat | j < p - 1 ensures !OccursAt(t, pat, j) {
        OccursAtTail(s, pat, j);
      }
      assert ReplaceFirst(s, pat, rep) == [s[0]] + ReplaceFirst(t, pat, rep);
      ReplaceFirstSplice(t, pat, rep, p - 1);
      assert t[..p - 1] == s[1..p] && t[p - 1 + |pat|..] == s[p + |pat|..];
      assert [s[0]] + s[1..p] == s[..p];
    }
  }

  /** For a replacement without `$`, String.prototype.replace is the literal
      splice: it agrees with ReplaceFirst on every input. */
  lemma ReplaceIsLiteralSplice(s: string, pat: string, rep: string)
    requires '$' !in rep
    ensures Replace(s, pat, rep) == ReplaceFirst(s, pat, rep)
  {
    match IndexOf(s, pat)
    case None =>
      ReplaceFirstAbsent(s, pat, rep);
    case Some(p) =>
      ReplaceFirstSplice(s, pat, rep, p);
  }

  /** Splicing at the first occurrence leaves every later occurrence that
      does not overlap the replaced one intact, shifted by |rep| - |pat|. */
  lemma SpliceKeepsLaterOccurrences(s: string, pat: string, rep: string, p: nat, j: nat)
    requires OccursAt(s, pat, p) && p + |pat| <= j && OccursAt(s, pat, j)
    ensures OccursAt(s[..p] + rep + s[p + |pat|..], pat, j - |pat| + |rep|)
  {
  }
}
