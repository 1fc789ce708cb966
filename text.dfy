/**
 * String primitives with the meaning they have in JavaScript, as the chat
 * component uses them: the `\s` character class and `String.prototype.trim`
 * (one and the same set of whitespace characters), first-occurrence search,
 * `split` on a single character, and the ASCII case folding that a
 * non-Unicode `/i` regular expression applies to the letters of a pattern.
 */
module Text {

  datatype Option<T> = None | Some(value: T)

  /** ECMAScript WhiteSpace and LineTerminator code points: what `\s` matches
      and what `trim` removes. */
  predicate IsWhitespace(c: char) {
    c == '\t' || c == '\n' || c == '\U{000B}' || c == '\U{000C}' || c == '\r'
    || c == ' ' || c == '\U{00A0}' || c == '\U{1680}'
    || ('\U{2000}' <= c <= '\U{200A}')
    || c == '\U{2028}' || c == '\U{2029}' || c == '\U{202F}' || c == '\U{205F}'
    || c == '\U{3000}' || c == '\U{FEFF}'
  }

  predicate AllWhitespace(s: string) {
    forall i :: 0 <= i < |s| ==> IsWhitespace(s[i])
  }

  /** Neither end of `s` is whitespace. */
  predicate IsTrimmed(s: string) {
    s == [] || (!IsWhitespace(s[0]) && !IsWhitespace(s[|s| - 1]))
  }

  /** Drops the longest all-whitespace prefix (what `\s*` at the start consumes). */
  function TrimStart(s: string): (r: string)
    ensures |r| <= |s| && r == s[|s| - |r|..]
    ensures AllWhitespace(s[..|s| - |r|])
    ensures r == [] || !IsWhitespace(r[0])
  {
    if |s| > 0 && IsWhitespace(s[0]) then TrimStart(s[1..]) else s
  }

  /** Drops the longest all-whitespace suffix. */
  function TrimEnd(s: string): (r: string)
    ensures |r| <= |s| && r == s[..|r|]
    ensures AllWhitespace(s[|r|..])
    ensures r == [] || !IsWhitespace(r[|r| - 1])
  {
    if |s| > 0 && IsWhitespace(s[|s| - 1]) then
      var r := TrimEnd(s[..|s| - 1]);
      assert s[|r|..] == s[..|s| - 1][|r|..] + [s[|s| - 1]];
      r
    else s
  }

  /** Number of whitespace characters `trim` removes at the front of `s`. */
  function LeadingWhitespace(s: string): nat {
    |s| - |TrimStart(s)|
  }

  /** `s.trim()`: the slice of `s` left once the whitespace at both ends is gone. */
  function Trim(s: string): (r: string)
    ensures IsTrimmed(r)
    ensures LeadingWhitespace(s) + |r| <= |s|
    ensures r == s[LeadingWhitespace(s)..LeadingWhitespace(s) + |r|]
    ensures AllWhitespace(s[..LeadingWhitespace(s)])
    ensures AllWhitespace(s[LeadingWhitespace(s) + |r|..])
  {
    var front := TrimStart(s);
    var r := TrimEnd(front);
    var a := |s| - |front|;
    assert r == s[a..a + |r|];
    assert s[a + |r|..] == front[|r|..];
    assert r == [] || !IsWhitespace(r[0]) by {
      if r != [] { assert r[0] == front[0]; }
    }
    r
  }

  /** Trimming removes everything exactly when everything is whitespace. */
  lemma {:induction false} TrimEmptyIffWhitespace(s: string)
    ensures Trim(s) == [] <==> AllWhitespace(s)
  {
    var a := LeadingWhitespace(s);
    if Trim(s) == [] {
      assert s[..a] == s;
    } else {
      assert !IsWhitespace(s[a]) by { assert Trim(s)[0] == s[a]; }
    }
  }

  /** Trimming an already trimmed string changes nothing. */
  lemma {:induction false} TrimTrimmed(s: string)
    requires IsTrimmed(s)
    ensures Trim(s) == s
  {
    assert TrimStart(s) == s;
    assert TrimEnd(s) == s;
  }

  /** `pat` occurs in `s` starting at index `k`. */
  predicate OccursAt(s: string, pat: string, k: nat) {
    k + |pat| <= |s| && s[k..k + |pat|] == pat
  }

  /** `s.indexOf(pat, from)`: the first occurrence of `pat` at or after `from`. */
  function IndexOf(s: string, pat: string, from: nat): (r: Option<nat>)
    ensures r.Some? ==> from <= r.value && OccursAt(s, pat, r.value)
    ensures r.Some? ==> forall k :: from <= k < r.value ==> !OccursAt(s, pat, k)
    ensures r.None? ==> forall k :: from <= k ==> !OccursAt(s, pat, k)
    decreases |s| - from
  {
    if from + |pat| > |s| then None
    else if OccursAt(s, pat, from) then Some(from)
    else IndexOf(s, pat, from + 1)
  }

  /** An occurrence inside a slice is an occurrence in the whole string. */
  lemma OccursInSlice(s: string, a: nat, b: nat, pat: string, q: nat)
    requires a <= b <= |s|
    requires OccursAt(s[a..b], pat, q)
    ensures OccursAt(s, pat, a + q)
  {
    var x, y := s[a..b][q..q + |pat|], s[a + q..a + q + |pat|];
    assert |x| == |y|;
    assert forall i :: 0 <= i < |x| ==> x[i] == y[i];
    assert x == y;
  }

  /** An occurrence that ends inside a slice is an occurrence in the slice. */
  lemma OccursInto(s: string, a: nat, b: nat, pat: string, k: nat)
    requires a <= k && k + |pat| <= b <= |s|
    requires OccursAt(s, pat, k)
    ensures OccursAt(s[a..b], pat, k - a)
  {
    var x, y := s[a..b][k - a..k - a + |pat|], s[k..k + |pat|];
    assert |x| == |y|;
    assert forall i :: 0 <= i < |x| ==> x[i] == y[i];
    assert x == y;
  }

  /** The characters of an occurrence are those of the pattern. */
  lemma OccursChars(s: string, pat: string, q: nat)
    requires OccursAt(s, pat, q)
    ensures forall i :: q <= i < q + |pat| ==> s[i] == pat[i - q]
  {
    forall i | q <= i < q + |pat| ensures s[i] == pat[i - q] {
      assert s[q..q + |pat|][i - q] == s[i];
    }
  }

  /** Two strings that agree on their first `n` characters have the same
      occurrences ending there. */
  lemma OccursInCommonPrefix(s: string, u: string, n: nat, pat: string, q: nat)
    requires n <= |s| && n <= |u| && s[..n] == u[..n]
    ensures OccursAt(s, pat, q) && q + |pat| <= n ==> OccursAt(u, pat, q)
  {
    if OccursAt(s, pat, q) && q + |pat| <= n {
      OccursInto(s, 0, n, pat, q);
      assert s[0..n] == u[0..n];
      OccursInSlice(u, 0, n, pat, q);
    }
  }

  /** Two strings whose tails from `a` and from `e` agree have the same
      occurrences in those tails, shifted by `e - a`. */
  lemma OccursInCommonSuffix(s: string, u: string, a: nat, e: nat, pat: string, q: nat)
    requires a <= |s| && e <= |u| && s[a..] == u[e..]
    ensures OccursAt(s, pat, q) && a <= q ==> OccursAt(u[e..], pat, q - a)
  {
    if OccursAt(s, pat, q) && a <= q {
      OccursInto(s, a, |s|, pat, q);
      assert s[a..|s|] == u[e..];
    }
  }

  /** The three parts of a concatenation, read back from it. */
  lemma ConcatParts(a: string, p: string, b: string)
    ensures |a + p + b| == |a| + |p| + |b|
    ensures (a + p + b)[..|a|] == a
    ensures (a + p + b)[|a| + |p|..] == b
    ensures forall i :: |a| <= i < |a| + |p| ==> (a + p + b)[i] == p[i - |a|]
  {
    assert (a + p + b)[..|a|] == a;
    assert (a + p + b)[|a| + |p|..] == b;
  }

  /** Text appended after the first occurrence does not move it. */
  lemma {:induction false} IndexOfExtend(s: string, u: string, pat: string, from: nat)
    requires IndexOf(s, pat, from).Some?
    ensures IndexOf(s + u, pat, from) == IndexOf(s, pat, from)
  {
    var k := IndexOf(s, pat, from).value;
    assert (s + u)[0..|s|] == s;
    OccursInSlice(s + u, 0, |s|, pat, k);
    var r := IndexOf(s + u, pat, from);
    if r.value < k {
      OccursInto(s + u, 0, |s|, pat, r.value);
      assert false;
    }
  }

  /** Cutting the text after the first occurrence does not move it either. */
  lemma {:induction false} IndexOfTruncate(s: string, n: nat, pat: string, from: nat)
    requires IndexOf(s, pat, from).Some?
    requires IndexOf(s, pat, from).value + |pat| <= n <= |s|
    ensures IndexOf(s[..n], pat, from) == IndexOf(s, pat, from)
  {
    var k := IndexOf(s, pat, from).value;
    OccursInto(s, 0, n, pat, k);
    assert s[0..n] == s[..n];
    var r := IndexOf(s[..n], pat, from);
    if r.value < k {
      OccursInSlice(s, 0, n, pat, r.value);
      assert false;
    }
  }

  /** ASCII upper-case letters mapped to lower case, everything else kept. */
  function LowerChar(c: char): char {
    if 'A' <= c <= 'Z' then (c as int - 'A' as int + 'a' as int) as char else c
  }

  function AsciiLower(s: string): string {
    seq(|s|, i requires 0 <= i < |s| => LowerChar(s[i]))
  }

  lemma AsciiLowerSlice(s: string, a: nat, b: nat)
    requires a <= b <= |s|
    ensures AsciiLower(s[a..b]) == AsciiLower(s)[a..b]
  {
  }

  /** Inverse of `Split`: the pieces glued back with `sep` between them. */
  function Join(pieces: seq<string>, sep: char): string {
    if |pieces| == 0 then []
    else if |pieces| == 1 then pieces[0]
    else pieces[0] + [sep] + Join(pieces[1..], sep)
  }

  /** `s.split(sep)` for a one-character separator: the maximal runs between
      separators, in order, empty runs included (so `""` gives `[""]`). */
  function Split(s: string, sep: char): (r: seq<string>)
    ensures |r| >= 1
    ensures forall i :: 0 <= i < |r| ==> sep !in r[i]
    ensures Join(r, sep) == s
  {
    if s == [] then [[]]
    else
      var rest := Split(s[1..], sep);
      if s[0] == sep then
        [[]] + rest
      else
        var r := [[s[0]] + rest[0]] + rest[1..];
        assert Join(r, sep) == [s[0]] + Join(rest, sep) by {
          if |rest| > 1 {
            assert r[1..] == rest[1..];
          }
        }
        assert s == [s[0]] + s[1..];
        r
  }

  /** The pieces of `s` are the only separator-free list that joins back to
      `s`; together with `Split`'s own contract this makes `Split` and `Join`
      inverse to each other. */
  lemma {:induction false} JoinInjective(a: seq<string>, b: seq<string>, sep: char)
    requires |a| >= 1 && |b| >= 1
    requires forall i :: 0 <= i < |a| ==> sep !in a[i]
    requires forall i :: 0 <= i < |b| ==> sep !in b[i]
    requires Join(a, sep) == Join(b, sep)
    ensures a == b
    decreases |a|
  {
    var s := Join(a, sep);
    JoinHead(a, sep);
    JoinHead(b, sep);
    if |a[0]| != |b[0]| {
      assert false;
    }
    assert a[0] == b[0];
    if |a| == 1 || |b| == 1 {
      if |a| != |b| {
        assert false;
      }
    } else {
      var ta := Join(a[1..], sep);
      var tb := Join(b[1..], sep);
      assert s == a[0] + [sep] + ta;
      assert s == b[0] + [sep] + tb;
      assert ta == s[|a[0]| + 1..];
      assert tb == s[|b[0]| + 1..];
      JoinInjective(a[1..], b[1..], sep);
      assert a == [a[0]] + a[1..];
      assert b == [b[0]] + b[1..];
    }
  }

  /** `Join` starts with the first piece, followed by `sep` when more come. */
  lemma JoinHead(pieces: seq<string>, sep: char)
    requires |pieces| >= 1
    ensures |pieces[0]| <= |Join(pieces, sep)|
    ensures forall i :: 0 <= i < |pieces[0]| ==> Join(pieces, sep)[i] == pieces[0][i]
    ensures |pieces| == 1 ==> Join(pieces, sep) == pieces[0]
    ensures |pieces| > 1 ==> |pieces[0]| < |Join(pieces, sep)| && Join(pieces, sep)[|pieces[0]|] == sep
  {
  }

  lemma SplitJoin(pieces: seq<string>, sep: char)
    requires |pieces| >= 1
    requires forall i :: 0 <= i < |pieces| ==> sep !in pieces[i]
    ensures Split(Join(pieces, sep), sep) == pieces
  {
    JoinInjective(Split(Join(pieces, sep), sep), pieces, sep);
  }
}
