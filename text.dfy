/** String primitives the widget relies on: ASCII lower-casing (the model of
    `String.prototype.toLowerCase`), substring search (`includes`) and
    whitespace trimming (`trim`). */
module Text {

  /** ASCII upper-case letters, the only characters `LowerChar` changes. */
  predicate IsUpperAscii(c: char) {
    'A' <= c <= 'Z'
  }

  function LowerChar(c: char): (d: char)
    ensures !IsUpperAscii(d)
  {
    if IsUpperAscii(c) then (c as int + 32) as char else c
  }

  /** Lower-cases every ASCII letter of `s`. */
  function Lower(s: string): (r: string) {
    if s == [] then [] else [LowerChar(s[0])] + Lower(s[1..])
  }

  /** Lowering keeps the length and works character by character. */
  lemma {:induction false} LowerAt(s: string)
    ensures |Lower(s)| == |s|
    ensures forall i :: 0 <= i < |s| ==> Lower(s)[i] == LowerChar(s[i])
  {
    if s != [] {
      LowerAt(s[1..]);
    }
  }

  /** Two strings that differ at most in the case of their letters. */
  predicate SameUpToCase(a: string, b: string) {
    |a| == |b| && forall i :: 0 <= i < |a| ==> LowerChar(a[i]) == LowerChar(b[i])
  }

  /** Lowering identifies exactly the strings that differ only in case. */
  lemma LowerEqualIff(a: string, b: string)
    ensures Lower(a) == Lower(b) <==> SameUpToCase(a, b)
  {
    LowerAt(a);
    LowerAt(b);
    if SameUpToCase(a, b) {
      assert forall i :: 0 <= i < |a| ==> Lower(a)[i] == Lower(b)[i];
    }
    if Lower(a) == Lower(b) {
      forall i | 0 <= i < |a| ensures LowerChar(a[i]) == LowerChar(b[i]) {
        assert Lower(a)[i] == Lower(b)[i];
      }
    }
  }

  lemma LowerIdempotent(s: string)
    ensures Lower(Lower(s)) == Lower(s)
  {
    LowerAt(s);
    LowerAt(Lower(s));
    assert forall i :: 0 <= i < |s| ==> Lower(Lower(s))[i] == Lower(s)[i];
  }

  /** `p` occurs in `s` starting at index `i`. */
  predicate OccursAt(s: string, p: string, i: int) {
    0 <= i && i + |p| <= |s| && s[i..i + |p|] == p
  }

  /** Substring test, as `s.includes(p)`: the empty pattern occurs everywhere. */
  predicate Contains(s: string, p: string) {
    exists i | 0 <= i <= |s| - |p| :: OccursAt(s, p, i)
  }

  /** A string contains every infix of itself. */
  lemma ContainsInfix(a: string, p: string, b: string)
    ensures Contains(a + p + b, p)
  {
    var s := a + p + b;
    assert s[|a|..|a| + |p|] == p;
    assert OccursAt(s, p, |a|);
  }

  /** A pattern with a character that `s` lacks does not occur in `s`. */
  lemma MissingCharNotContained(s: string, p: string, c: char)
    requires c in p && c !in s
    ensures !Contains(s, p)
  {
    var j :| 0 <= j < |p| && p[j] == c;
    forall i | 0 <= i <= |s| - |p| ensures !OccursAt(s, p, i) {
      assert s[i + j] in s;
      assert s[i..i + |p|][j] == s[i + j];
    }
  }

  /** Lowering keeps every occurrence, with the pattern lowered too. */
  lemma LowerKeepsOccurrence(s: string, p: string, i: int)
    requires OccursAt(s, p, i)
    ensures OccursAt(Lower(s), Lower(p), i)
  {
    LowerAt(s);
    LowerAt(p);
    var r := Lower(s)[i..i + |p|];
    assert r == Lower(p) by {
      forall k | 0 <= k < |p| ensures r[k] == Lower(p)[k] {
        assert s[i + k] == s[i..i + |p|][k];
      }
    }
  }

  /** An infix of `s` shows up, lowered, in `Lower(s)`. */
  lemma LowerKeepsInfix(a: string, p: string, b: string)
    ensures Contains(Lower(a + p + b), Lower(p))
  {
    var s := a + p + b;
    assert s[|a|..|a| + |p|] == p;
    LowerKeepsOccurrence(s, p, |a|);
  }

  /** A lower-case character that is absent from `s`, in both cases, is absent from `Lower(s)`. */
  lemma LowerMissingChar(s: string, c: char)
    requires 'a' <= c <= 'z'
    requires c !in s && (c as int - 32) as char !in s
    ensures c !in Lower(s)
  {
    LowerAt(s);
    forall i | 0 <= i < |s| ensures Lower(s)[i] != c {
      assert s[i] in s;
    }
  }

  /** A keyword with a letter that `s` lacks in both cases does not occur in `Lower(s)`. */
  lemma LowerLacksKeyword(s: string, p: string, c: char)
    requires 'a' <= c <= 'z' && c in p
    requires c !in s && (c as int - 32) as char !in s
    ensures !Contains(Lower(s), p)
  {
    LowerMissingChar(s, c);
    MissingCharNotContained(Lower(s), p, c);
  }

  /** The characters `trim` removes: ECMAScript WhiteSpace (TAB, VT, FF,
      SPACE, NBSP, ZWNBSP and every Unicode space separator) and
      LineTerminator (LF, CR, LS, PS). */
  predicate IsSpace(c: char) {
    c == '\t' || c == '\n' || c == '\U{B}' || c == '\U{C}' || c == '\r' ||
    c == ' ' || c == '\U{A0}' || c == '\U{1680}' ||
    ('\U{2000}' <= c <= '\U{200A}') ||
    c == '\U{2028}' || c == '\U{2029}' || c == '\U{202F}' || c == '\U{205F}' ||
    c == '\U{3000}' || c == '\U{FEFF}'
  }

  /** Every character of `s` is whitespace (vacuously so for the empty string). */
  predicate IsBlank(s: string) {
    forall i :: 0 <= i < |s| ==> IsSpace(s[i])
  }

  /** Drops leading whitespace. */
  function TrimStart(s: string): (r: string) {
    if |s| > 0 && IsSpace(s[0]) then TrimStart(s[1..]) else s
  }

  /** Drops trailing whitespace. */
  function TrimEnd(s: string): (r: string) {
    if |s| > 0 && IsSpace(s[|s| - 1]) then TrimEnd(s[..|s| - 1]) else s
  }

  /** Drops leading and trailing whitespace, as `s.trim()`. */
  function Trim(s: string): (r: string) {
    TrimStart(TrimEnd(s))
  }

  lemma BlankConcat(a: string, b: string)
    requires IsBlank(a) && IsBlank(b)
    ensures IsBlank(a + b)
  {
    forall i | 0 <= i < |a + b| ensures IsSpace((a + b)[i]) {
      if i >= |a| {
        assert (a + b)[i] == b[i - |a|];
      }
    }
  }

  /** `TrimStart` removes a blank prefix and stops at a non-space character. */
  lemma {:induction false} TrimStartSpec(s: string)
    ensures |TrimStart(s)| <= |s| && TrimStart(s) == s[|s| - |TrimStart(s)|..]
    ensures IsBlank(s[..|s| - |TrimStart(s)|])
    ensures TrimStart(s) == [] || !IsSpace(TrimStart(s)[0])
  {
    if |s| > 0 && IsSpace(s[0]) {
      var t := s[1..];
      var r := TrimStart(t);
      TrimStartSpec(t);
      assert TrimStart(s) == r;
      assert t[|t| - |r|..] == s[|s| - |r|..];
      assert s[..|s| - |r|] == [s[0]] + t[..|t| - |r|];
      BlankConcat([s[0]], t[..|t| - |r|]);
    }
  }

  /** `TrimEnd` removes a blank suffix and stops at a non-space character. */
  lemma {:induction false} TrimEndSpec(s: string)
    ensures |TrimEnd(s)| <= |s| && TrimEnd(s) == s[..|TrimEnd(s)|]
    ensures IsBlank(s[|TrimEnd(s)|..])
    ensures TrimEnd(s) == [] || !IsSpace(TrimEnd(s)[|TrimEnd(s)| - 1])
  {
    if |s| > 0 && IsSpace(s[|s| - 1]) {
      var t := s[..|s| - 1];
      var r := TrimEnd(t);
      TrimEndSpec(t);
      assert TrimEnd(s) == r;
      assert t[..|r|] == s[..|r|];
      assert s[|r|..] == t[|r|..] + [s[|s| - 1]];
      BlankConcat(t[|r|..], [s[|s| - 1]]);
    }
  }

  /** Text that is non-empty and starts and ends with a non-space character. */
  predicate IsTrimmed(t: string) {
    t != [] && !IsSpace(t[0]) && !IsSpace(t[|t| - 1])
  }

  /** Trimming yields nothing exactly for blank text, and otherwise text
      with a non-space character at either end. */
  lemma TrimSpec(s: string)
    ensures Trim(s) == [] <==> IsBlank(s)
    ensures Trim(s) != [] ==> IsTrimmed(Trim(s))
  {
    var e := TrimEnd(s);
    var r := TrimStart(e);
    TrimEndSpec(s);
    TrimStartSpec(e);
    assert s == e + s[|e|..];
    assert r != [] ==> r[|r| - 1] == e[|e| - 1];
  }

  /** `Trim(s)` is the slice of `s` between a blank prefix and a blank suffix. */
  lemma TrimIsSlice(s: string) returns (i: nat, j: nat)
    ensures i <= j <= |s| && Trim(s) == s[i..j]
    ensures IsBlank(s[..i]) && IsBlank(s[j..])
  {
    var e := TrimEnd(s);
    var r := TrimStart(e);
    TrimEndSpec(s);
    TrimStartSpec(e);
    i, j := |e| - |r|, |e|;
    assert s[..i] == e[..i];
    assert s[i..j] == e[i..];
  }

  /** Trimming leaves trimmed text as it is. */
  lemma TrimmedIsFixed(t: string)
    requires IsTrimmed(t)
    ensures Trim(t) == t
  {
  }

  lemma TrimIdempotent(s: string)
    ensures Trim(Trim(s)) == Trim(s)
  {
    TrimSpec(s);
    if Trim(s) != [] {
      TrimmedIsFixed(Trim(s));
    }
  }
}
