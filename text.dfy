/**
 The few string operations of the JavaScript runtime that the document reader relies on:
 `String.prototype.indexOf`, `String.prototype.replace` with a string pattern, and
 `String.prototype.toLowerCase` (on the characters that matter here).
 */
module Text {
  import opened Wrappers

  /** `pat` occurs in `s` starting at position `i`. */
  predicate OccursAt(s: string, pat: string, i: nat)
  {
    i + |pat| <= |s| && s[i..i + |pat|] == pat
  }

  /** The first position at or after `from` where `pat` occurs in `s`. */
  function IndexFrom(s: string, pat: string, from: nat): (r: Option<nat>)
    requires from <= |s|
    ensures r.Some? ==> from <= r.value && OccursAt(s, pat, r.value)
    ensures r.Some? ==> forall j :: from <= j < r.value ==> !OccursAt(s, pat, j)
    ensures r.None? ==> forall j :: from <= j ==> !OccursAt(s, pat, j)
    decreases |s| - from
  {
    if OccursAt(s, pat, from) then Some(from)
    else if from + |pat| >= |s| then None
    else IndexFrom(s, pat, from + 1)
  }

  /** JavaScript's `s.indexOf(pat)`, with "not found" (-1) as `None`. */
  function IndexOf(s: string, pat: string): Option<nat>
  {
    IndexFrom(s, pat, 0)
  }

  /** `s` holds `pat` nowhere. */
  predicate Absent(s: string, pat: string)
  {
    forall j: nat | j <= |s| :: !OccursAt(s, pat, j)
  }

  /** `i` is the leftmost occurrence of `pat` in `s`. */
  predicate FirstAt(s: string, pat: string, i: nat)
  {
    OccursAt(s, pat, i) && forall j: nat | j < i :: !OccursAt(s, pat, j)
  }

  lemma IndexOfFinds(s: string, pat: string)
    ensures IndexOf(s, pat).None? <==> Absent(s, pat)
    ensures IndexOf(s, pat).Some? ==> FirstAt(s, pat, IndexOf(s, pat).value)
  {
  }

  /**
   JavaScript's `s.replace(pat, rep)` for a string `pat` and a `rep` without `$` patterns:
   only the FIRST occurrence of `pat` is replaced, and `s` is returned unchanged when `pat`
   does not occur.
   */
  function ReplaceFirst(s: string, pat: string, rep: string): (r: string)
    ensures Absent(s, pat) ==> r == s
    ensures forall i: nat :: FirstAt(s, pat, i) ==> r == s[..i] + rep + s[i + |pat|..]
  {
    IndexOfFinds(s, pat);
    match IndexOf(s, pat)
    case None => s
    case Some(i) =>
      s[..i] + rep + s[i + |pat|..]
  }

  /** `pat` occurs in `a + pat + b` right after `a`. */
  lemma OccursInMiddle(a: string, pat: string, b: string)
    ensures OccursAt(a + pat + b, pat, |a|)
  {
  }

  /** `pat` occurs at the end of `a + pat`. */
  lemma OccursAtEnd(a: string, pat: string)
    ensures OccursAt(a + pat, pat, |a|)
  {
  }

  /** An occurrence in `a` is still one in `a + b`. */
  lemma OccursExtended(a: string, pat: string, i: nat, b: string)
    requires OccursAt(a, pat, i)
    ensures OccursAt(a + b, pat, i)
  {
  }

  /** The strings of `parts` written one after the other. */
  function Concat(parts: seq<string>): (s: string)
  {
    if parts == [] then "" else Concat(parts[..|parts| - 1]) + parts[|parts| - 1]
  }

  /** Each part occurs in the concatenation, right after the parts before it. */
  lemma {:induction false} PartOccurs(parts: seq<string>, k: nat)
    requires k < |parts|
    ensures OccursAt(Concat(parts), parts[k], |Concat(parts[..k])|)
  {
    var init := parts[..|parts| - 1];
    if k == |parts| - 1 {
      assert parts[..k] == init;
      OccursAtEnd(Concat(init), parts[k]);
    } else {
      PartOccurs(init, k);
      assert init[..k] == parts[..k];
      OccursExtended(Concat(init), parts[k], |Concat(parts[..k])|, parts[|parts| - 1]);
    }
  }

  /** Lower-casing of one character; only the letters A to Z are mapped. */
  function LowerChar(c: char): (l: char)
  {
    if 'A' <= c <= 'Z' then (c as int + 32) as char else c
  }

  /** JavaScript's `s.toLowerCase()`, restricted to the ASCII letters. */
  function ToLower(s: string): (r: string)
    ensures |r| == |s|
    ensures forall i :: 0 <= i < |r| ==> !('A' <= r[i] <= 'Z')
    ensures forall i :: 0 <= i < |s| && !('A' <= s[i] <= 'Z') ==> r[i] == s[i]
    ensures forall i :: 0 <= i < |s| && 'A' <= s[i] <= 'Z' ==> r[i] as int == s[i] as int + 32
  {
    seq(|s|, i requires 0 <= i < |s| => LowerChar(s[i]))
  }

  /** A string lower-cases to the one-letter string `[l]` exactly when it is `[l]` or its capital. */
  lemma LowersToLetter(s: string, l: char)
    requires 'a' <= l <= 'z'
    ensures ToLower(s) == [l] <==> s == [l] || s == [(l as int - 32) as char]
  {
  }
}
