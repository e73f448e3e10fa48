/**
 * The handful of JavaScript string operations the token pipeline relies on:
 * `String.prototype.includes`, `replace` with a string pattern (and the
 * first-occurrence search it performs, modelled as `IndexOf`), `toUpperCase`
 * on ASCII text, and `Array.prototype.join`.
 */
module Strings {
  import opened Results

  /** `p` occurs in `s` starting at index `i` */
  predicate OccursAt(s: string, p: string, i: int) {
    0 <= i && i + |p| <= |s| && s[i..i + |p|] == p
  }

  /** `p` occurs in `s` at `i` and nowhere to the left of `i` */
  ghost predicate FirstOccurrence(s: string, p: string, i: int) {
    OccursAt(s, p, i) && forall j :: 0 <= j < i ==> !OccursAt(s, p, j)
  }

  /** `p` is a substring of `s` */
  ghost predicate IsSubstring(p: string, s: string) {
    exists i :: OccursAt(s, p, i)
  }

  /** The first index at or after `k` where `p` occurs in `s` */
  function IndexFrom(s: string, p: string, k: nat): (r: Option<nat>)
    ensures r.Some? ==> k <= r.value && OccursAt(s, p, r.value)
    ensures r.Some? ==> forall j :: k <= j < r.value ==> !OccursAt(s, p, j)
    ensures r.None? ==> forall j :: k <= j ==> !OccursAt(s, p, j)
    decreases |s| - k
  {
    if k + |p| > |s| then None
    else if s[k..k + |p|] == p then Some(k)
    else IndexFrom(s, p, k + 1)
  }

  /** The first-occurrence search `replace` performs, as `s.indexOf(p)` gives it, with `None` for -1 */
  function IndexOf(s: string, p: string): (r: Option<nat>)
    ensures r.Some? ==> FirstOccurrence(s, p, r.value)
    ensures r.None? <==> !IsSubstring(p, s)
  {
    IndexFrom(s, p, 0)
  }

  /** `s.includes(p)` */
  function Includes(s: string, p: string): (r: bool)
    ensures r <==> IsSubstring(p, s)
  {
    IndexOf(s, p).Some?
  }

  /**
   * `s.replace(p, rep)` for a string pattern `p` and a replacement without `$`
   * patterns: only the first occurrence of `p` is replaced.
   */
  function ReplaceFirst(s: string, p: string, rep: string): (r: string)
    ensures !IsSubstring(p, s) ==> r == s
    ensures forall i {:trigger FirstOccurrence(s, p, i)} ::
              FirstOccurrence(s, p, i) ==> r == s[..i] + rep + s[i + |p|..]
  {
    match IndexOf(s, p)
    case None => s
    case Some(i) =>
      s[..i] + rep + s[i + |p|..]
  }

  /** ASCII upper-casing of one character */
  function UpperChar(c: char): char {
    if 'a' <= c <= 'z' then (c as int - 32) as char else c
  }

  /** `s.toUpperCase()` on ASCII text */
  function ToUpper(s: string): (r: string)
    ensures |r| == |s|
    ensures forall i :: 0 <= i < |s| ==> r[i] == UpperChar(s[i])
  {
    seq(|s|, i requires 0 <= i < |s| => UpperChar(s[i]))
  }

  lemma ToUpperAppend(a: string, b: string)
    ensures ToUpper(a + b) == ToUpper(a) + ToUpper(b)
  {
  }

  /** `parts.join(sep)` */
  function Join(parts: seq<string>, sep: string): string
  {
    if |parts| == 0 then ""
    else if |parts| == 1 then parts[0]
    else parts[0] + sep + Join(parts[1..], sep)
  }

  lemma {:induction false} SubstringOfConcat(x: string, a: string, b: string, c: string)
    requires IsSubstring(x, b)
    ensures IsSubstring(x, a + b + c)
  {
    var i :| OccursAt(b, x, i);
    var s := a + b + c;
    assert s[|a| + i..|a| + i + |x|] == b[i..i + |x|];
    assert OccursAt(s, x, |a| + i);
  }

  lemma SubstringOfItself(x: string)
    ensures IsSubstring(x, x)
  {
    assert OccursAt(x, x, 0);
  }

  /** Every part of a join is a substring of the joined text */
  lemma {:induction false} JoinHasPart(parts: seq<string>, sep: string, k: nat)
    requires k < |parts|
    ensures IsSubstring(parts[k], Join(parts, sep))
    decreases |parts|
  {
    if |parts| == 1 {
      SubstringOfItself(parts[0]);
    } else if k == 0 {
      SubstringOfItself(parts[0]);
      SubstringOfConcat(parts[0], "", parts[0], sep + Join(parts[1..], sep));
      assert "" + parts[0] + (sep + Join(parts[1..], sep)) == Join(parts, sep);
    } else {
      JoinHasPart(parts[1..], sep, k - 1);
      SubstringOfConcat(parts[k], parts[0] + sep, Join(parts[1..], sep), "");
      assert parts[0] + sep + Join(parts[1..], sep) + "" == Join(parts, sep);
    }
  }

  lemma {:induction false} SubstringTransitive(x: string, y: string, z: string)
    requires IsSubstring(x, y) && IsSubstring(y, z)
    ensures IsSubstring(x, z)
  {
    var i :| OccursAt(y, x, i);
    var j :| OccursAt(z, y, j);
    forall m | 0 <= m < |x|
      ensures z[j + i + m] == x[m]
    {
      assert z[j..j + |y|][i + m] == y[i + m];
      assert y[i..i + |x|][m] == y[i + m];
    }
    assert z[j + i..j + i + |x|] == x;
    assert OccursAt(z, x, j + i);
  }
}
