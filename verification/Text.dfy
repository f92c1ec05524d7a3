// Byte strings as the reader and the writers see them.
//
// A byte is a char and a byte string is a string.  No statement depends on the elements of
// a string being below 256, so every statement covers all byte strings.
module Text {

  datatype Option<+T> = None | Some(value: T)

  const NUL: char := '\0'

  /** The byte a C pointer to position i of doc refers to: std::string keeps a NUL at its end. */
  function Peek(doc: string, i: nat): char {
    if i < |doc| then doc[i] else NUL
  }

  /** The text s stands in doc from position i up to position j. */
  ghost predicate At(doc: string, i: nat, j: nat, s: string) {
    i + |s| == j <= |doc| && forall k :: 0 <= k < |s| ==> s[k] == doc[i + k]
  }

  lemma AtSplit(doc: string, i: nat, j: nat, a: string, b: string) returns (m: nat)
    requires At(doc, i, j, a + b)
    ensures At(doc, i, m, a) && At(doc, m, j, b)
  {
    m := i + |a|;
    forall k | 0 <= k < |a| ensures a[k] == doc[i + k] {
      assert a[k] == (a + b)[k];
    }
    forall k | 0 <= k < |b| ensures b[k] == doc[m + k] {
      assert b[k] == (a + b)[|a| + k];
    }
  }

  /** The first byte of a text that stands at i. */
  lemma AtFirst(doc: string, i: nat, j: nat, s: string)
    requires At(doc, i, j, s) && s != ""
    ensures i < j <= |doc| && doc[i] == s[0] && At(doc, i + 1, j, s[1..])
  {
  }

  /** What stands at i is what a slice of the document shows. */
  lemma AtSlice(doc: string, i: nat, j: nat, s: string)
    ensures At(doc, i, j, s) <==> i <= j <= |doc| && doc[i..j] == s
  {
    if i <= j <= |doc| && doc[i..j] == s {
      forall k | 0 <= k < |s| ensures s[k] == doc[i + k] {
        assert doc[i..j][k] == doc[i + k];
      }
    }
  }

  lemma Assoc(a: string, b: string, c: string)
    ensures a + (b + c) == a + b + c
  {
  }

  predicate IsSpace(c: char) {
    c == ' ' || c == '\t' || c == '\r' || c == '\n'
  }

  ghost predicate AllSpaces(s: string) {
    forall k :: 0 <= k < |s| ==> IsSpace(s[k])
  }

  predicate IsDigit(c: char) {
    '0' <= c <= '9'
  }

  ghost predicate AllDigits(s: string) {
    forall k :: 0 <= k < |s| ==> IsDigit(s[k])
  }

  /** What a NUL-terminated char array holds. */
  type CString = s: string | NUL !in s

  /** A string as the C functions see it: everything before the first NUL. */
  function CStr(s: string): (r: CString)
    ensures r <= s && (r != s ==> s[|r|] == NUL)
    ensures NUL !in s ==> r == s
  {
    if s == "" || s[0] == NUL then "" else [s[0]] + CStr(s[1..])
  }

  /** strcmp(a, b) < 0 */
  predicate StrLess(a: string, b: string) {
    if b == "" then false
    else if a == "" then true
    else if a[0] != b[0] then a[0] < b[0]
    else StrLess(a[1..], b[1..])
  }

  lemma {:induction false} StrTrichotomy(a: string, b: string)
    ensures !StrLess(a, a)
    ensures a != b ==> StrLess(a, b) != StrLess(b, a)
  {
    if a != "" {
      StrTrichotomy(a[1..], if b == "" then b else b[1..]);
      if b != "" && a[0] == b[0] {
        assert a == [a[0]] + a[1..] && b == [b[0]] + b[1..];
      }
    }
  }

  lemma {:induction false} StrTransitive(a: string, b: string, c: string)
    requires StrLess(a, b) && StrLess(b, c)
    ensures StrLess(a, c)
  {
    if a != "" && a[0] == b[0] == c[0] {
      StrTransitive(a[1..], b[1..], c[1..]);
    }
  }
}
