/**
 * String scanning used by the probe and by address parsing: substring
 * search (`strings.Contains`), first occurrence of a character, and
 * splitting on / joining with a separator character.
 */
module Text {

  predicate OccursAt(s: string, pat: string, i: nat) {
    i + |pat| <= |s| && s[i..i + |pat|] == pat
  }

  /** Whether `pat` occurs in `s` at some position `from` or later. */
  function ContainsFrom(s: string, pat: string, from: nat): (b: bool)
    requires from <= |s|
    ensures b <==> exists i :: from <= i <= |s| && OccursAt(s, pat, i)
    decreases |s| - from
  {
    if OccursAt(s, pat, from) then true
    else if from == |s| then false
    else ContainsFrom(s, pat, from + 1)
  }

  /** `strings.Contains(s, pat)`. */
  function Contains(s: string, pat: string): (b: bool)
    ensures b <==> exists i :: 0 <= i <= |s| && OccursAt(s, pat, i)
  {
    ContainsFrom(s, pat, 0)
  }

  /** The first position of `c` in `s`. */
  function IndexOf(s: string, c: char): (i: nat)
    requires c in s
    ensures i < |s| && s[i] == c && c !in s[..i]
  {
    if s[0] == c then 0 else 1 + IndexOf(s[1..], c)
  }

  /** The fields of `s` between occurrences of `sep`; one field when `sep` does not occur. */
  function Split(s: string, sep: char): (fields: seq<string>)
    ensures |fields| >= 1
    ensures forall k :: 0 <= k < |fields| ==> sep !in fields[k]
    decreases |s|
  {
    if sep !in s then [s]
    else
      var i := IndexOf(s, sep);
      [s[..i]] + Split(s[i + 1..], sep)
  }

  function Join(fields: seq<string>, sep: char): string
    requires |fields| >= 1
  {
    if |fields| == 1 then fields[0] else fields[0] + [sep] + Join(fields[1..], sep)
  }

  /** Splitting loses nothing: joining the fields back gives the original text. */
  lemma {:induction false} JoinSplit(s: string, sep: char)
    ensures Join(Split(s, sep), sep) == s
    decreases |s|
  {
    if sep in s {
      var i := IndexOf(s, sep);
      JoinSplit(s[i + 1..], sep);
      assert s == s[..i] + [sep] + s[i + 1..];
    }
  }

  /** Fields free of the separator are recovered by splitting their join. */
  lemma {:induction false} SplitJoin(fields: seq<string>, sep: char)
    requires |fields| >= 1
    requires forall k :: 0 <= k < |fields| ==> sep !in fields[k]
    ensures Split(Join(fields, sep), sep) == fields
  {
    if |fields| > 1 {
      var f, rest := fields[0], Join(fields[1..], sep);
      SplitPrefix(f + [sep] + rest, f, rest, sep);
      SplitJoin(fields[1..], sep);
      assert [f] + fields[1..] == fields;
    }
  }

  /** Text that starts with a separator-free field and a separator splits off that field first. */
  lemma SplitPrefix(s: string, f: string, rest: string, sep: char)
    requires s == f + [sep] + rest && sep !in f
    ensures Split(s, sep) == [f] + Split(rest, sep)
  {
    assert s[..|f|] == f;
    IndexOfPrefix(s, f, sep);
    assert s[|f| + 1..] == rest;
  }

  lemma IndexOfPrefix(s: string, f: string, sep: char)
    requires |f| < |s| && s[..|f|] == f && s[|f|] == sep && sep !in f
    ensures sep in s && IndexOf(s, sep) == |f|
  {
    assert s[|f|] == sep;
  }
}
