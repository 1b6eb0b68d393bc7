/** Small shared vocabulary: an optional value and the ASCII character
    classes that the naming rules are written in. */
module Base {

  datatype Option<T> = None | Some(value: T)

  predicate IsAsciiUpper(c: char) { 'A' <= c <= 'Z' }

  predicate IsAsciiLower(c: char) { 'a' <= c <= 'z' }

  predicate IsDigit(c: char) { '0' <= c <= '9' }

  /** The class `[A-Za-z0-9]`. */
  predicate IsAsciiAlnum(c: char) { IsAsciiUpper(c) || IsAsciiLower(c) || IsDigit(c) }

  /** `toLowerCase` on one character, restricted to the ASCII letters. */
  function Lower(c: char): (r: char)
    ensures IsAsciiUpper(c) ==> IsAsciiLower(r) && r as int == c as int + 32
    ensures !IsAsciiUpper(c) ==> r == c
    ensures !IsAsciiUpper(r)
  {
    if IsAsciiUpper(c) then (c as int + 32) as char else c
  }

  /** The characters of `s` that are ASCII letters or digits, in order. */
  function Alnums(s: string): string
  {
    if s == [] then [] else (if IsAsciiAlnum(s[0]) then [s[0]] else []) + Alnums(s[1..])
  }

  /** `toLowerCase` on a whole string, restricted to the ASCII letters. */
  function LowerAll(s: string): (r: string)
    ensures |r| == |s|
    ensures forall i :: 0 <= i < |s| ==> r[i] == Lower(s[i])
  {
    if s == [] then [] else [Lower(s[0])] + LowerAll(s[1..])
  }

  predicate StartsWith(s: string, prefix: string)
  {
    |prefix| <= |s| && s[..|prefix|] == prefix
  }

  predicate EndsWith(s: string, suffix: string)
  {
    |suffix| <= |s| && s[|s| - |suffix|..] == suffix
  }

  /** `name.startsWith('.')`: the entries every walk skips. */
  predicate IsDotEntry(name: string)
  {
    |name| > 0 && name[0] == '.'
  }

  /** `name.endsWith('.md')`. */
  predicate IsMarkdown(name: string)
  {
    EndsWith(name, ".md")
  }

  /** A sequence is its prefix, the element at `i` and its suffix. */
  lemma SpliceParts<T>(s: seq<T>, i: nat)
    requires i < |s|
    ensures s == s[..i] + ([s[i]] + s[i + 1..])
  {
  }

  /** The head and the tail of a concatenation with a non-empty front. */
  lemma AppendHeadTail<T>(a: seq<T>, b: seq<T>)
    requires |a| > 0
    ensures (a + b)[0] == a[0] && (a + b)[1..] == a[1..] + b
  {
  }

  lemma UnionSwap<T>(b: multiset<T>, n: multiset<T>, a: multiset<T>)
    ensures b + (n + a) == (b + a) + n
  {
  }

  lemma AppendAssoc<T>(a: seq<T>, b: seq<T>, c: seq<T>)
    ensures (a + b) + c == a + (b + c)
  {
  }
}
