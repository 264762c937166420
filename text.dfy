/**
 * String helpers shared by the generator model: Python's `str.join`,
 * `str.endswith` and the ASCII part of `str.lower`.
 */
module Text {

  /** `sep.join(xs)`: the strings of `xs` in order, with `sep` between neighbours. */
  function Join(sep: string, xs: seq<string>): string
  {
    if |xs| == 0 then ""
    else if |xs| == 1 then xs[0]
    else xs[0] + sep + Join(sep, xs[1..])
  }

  /** Joining a non-empty list: the first element, then either nothing or the separator and the rest. */
  lemma {:induction false} JoinCons(sep: string, x: string, xs: seq<string>)
    ensures Join(sep, [x] + xs) == if xs == [] then x else x + sep + Join(sep, xs)
  {
    assert ([x] + xs)[1..] == xs;
  }

  /** A join of two or more strings, followed by more text, regrouped around its first separator. */
  lemma {:induction false} JoinConsAppend(sep: string, x: string, xs: seq<string>, rest: string)
    requires xs != []
    ensures Join(sep, [x] + xs) + rest == x + (sep + (Join(sep, xs) + rest))
  {
    JoinCons(sep, x, xs);
  }

  /** A non-empty sequence is its first element and the rest, also when more follows. */
  lemma {:induction false} SplitHead<T>(a: seq<T>, b: seq<T>)
    requires a != []
    ensures a == [a[0]] + a[1..]
    ensures a + b == [a[0]] + (a[1..] + b)
  {
  }

  lemma {:induction false} Assoc<T>(x: seq<T>, y: seq<T>, z: seq<T>)
    ensures x + (y + z) == (x + y) + z
  {
  }

  predicate StartsWith(s: string, prefix: string)
  {
    |prefix| <= |s| && s[..|prefix|] == prefix
  }

  predicate EndsWith(s: string, suffix: string)
  {
    |suffix| <= |s| && s[|s| - |suffix|..] == suffix
  }

  predicate IsAsciiUpper(c: char)
  {
    'A' <= c <= 'Z'
  }

  /** Lower-cases one character; only the ASCII letters A-Z change. */
  function LowerChar(c: char): (r: char)
    ensures IsAsciiUpper(c) ==> r as int == c as int + 32
    ensures !IsAsciiUpper(c) ==> r == c
  {
    if IsAsciiUpper(c) then (c as int + 32) as char else c
  }

  /** `s.lower()`, restricted to the ASCII case mapping. */
  function Lower(s: string): (r: string)
    ensures |r| == |s|
    ensures forall i :: 0 <= i < |s| ==> r[i] == LowerChar(s[i])
  {
    seq(|s|, i requires 0 <= i < |s| => LowerChar(s[i]))
  }
}
