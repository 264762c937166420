/**
 * The column-name sanitiser of the generator (`_sanitize_column_name`):
 * strip surrounding whitespace, replace every maximal run of non-word
 * characters by one `_` (the regular expression `\W+`), and enclose the
 * result in backticks.
 */
module Sanitize {
  import opened Text


  /** A regex word character (`\w`), over ASCII: a letter, a digit or `_`. */
  predicate IsWordChar(c: char)
  {
    ('a' <= c <= 'z') || ('A' <= c <= 'Z') || ('0' <= c <= '9') || c == '_'
  }

  /** A character that `str.strip()` removes, over ASCII: space, \t \n \v \f \r and \x1c-\x1f. */
  predicate IsSpace(c: char)
  {
    c == ' ' || (9 <= c as int <= 13) || (28 <= c as int <= 31)
  }

  predicate AllWord(s: string)
  {
    forall i :: 0 <= i < |s| ==> IsWordChar(s[i])
  }

  predicate NoWord(s: string)
  {
    forall i :: 0 <= i < |s| ==> !IsWordChar(s[i])
  }

  predicate AllSpace(s: string)
  {
    forall i :: 0 <= i < |s| ==> IsSpace(s[i])
  }

  /** No whitespace at either end: what `strip()` leaves. */
  predicate Trimmed(s: string)
  {
    s == [] || (!IsSpace(s[0]) && !IsSpace(s[|s| - 1]))
  }

  /** `lstrip()`: drops the whitespace prefix. */
  function TrimStart(s: string): (r: string)
    ensures |r| <= |s|
  {
    if |s| > 0 && IsSpace(s[0]) then TrimStart(s[1..]) else s
  }

  /** `lstrip()` drops the whitespace prefix and nothing else. */
  lemma {:induction false} TrimStartSpec(s: string)
    ensures TrimStart(s) == s[|s| - |TrimStart(s)|..]
    ensures AllSpace(s[..|s| - |TrimStart(s)|])
    ensures TrimStart(s) == [] || !IsSpace(TrimStart(s)[0])
  {
    if |s| > 0 && IsSpace(s[0]) {
      TrimStartSpec(s[1..]);
      var k := |s| - |TrimStart(s)|;
      assert s[1..][k - 1..] == s[k..];
      assert s[..k] == [s[0]] + s[1..][..k - 1];
    }
  }

  /** `rstrip()`: drops the whitespace suffix. */
  function TrimEnd(s: string): (r: string)
    ensures |r| <= |s|
  {
    if |s| > 0 && IsSpace(s[|s| - 1]) then TrimEnd(s[..|s| - 1]) else s
  }

  /** `rstrip()` drops the whitespace suffix and nothing else. */
  lemma {:induction false} TrimEndSpec(s: string)
    ensures TrimEnd(s) == s[..|TrimEnd(s)|]
    ensures AllSpace(s[|TrimEnd(s)|..])
    ensures TrimEnd(s) == [] || !IsSpace(TrimEnd(s)[|TrimEnd(s)| - 1])
  {
    if |s| > 0 && IsSpace(s[|s| - 1]) {
      var s' := s[..|s| - 1];
      TrimEndSpec(s');
      var k := |TrimEnd(s)|;
      assert s'[..k] == s[..k];
      assert s[k..] == s'[k..] + [s[|s| - 1]];
    }
  }

  /** `strip()`: whitespace removed from both ends. */
  function Strip(s: string): (r: string)
    ensures Trimmed(r)
    ensures |r| <= |s|
  {
    TrimStartSpec(s);
    TrimEndSpec(TrimStart(s));
    TrimEnd(TrimStart(s))
  }

  /**
   * What `strip()` removes is whitespace only: the result is a slice of `s`,
   * starting after the leading whitespace, with only whitespace after it.
   * With `Trimmed`, this determines the result uniquely.
   */
  lemma {:induction false} StripSlice(s: string)
    ensures var i := |s| - |TrimStart(s)|;
            && i + |Strip(s)| <= |s|
            && s[i..i + |Strip(s)|] == Strip(s)
            && AllSpace(s[..i]) && AllSpace(s[i + |Strip(s)|..])
  {
    var t := TrimStart(s);
    var r := TrimEnd(t);
    var i := |s| - |t|;
    TrimStartSpec(s);
    TrimEndSpec(t);
    assert s[i..i + |r|] == t[..|r|];
    assert s[i + |r|..] == t[|r|..];
  }

  lemma {:induction false} StripTrimmed(s: string)
    requires Trimmed(s)
    ensures Strip(s) == s
  {
    assert TrimStart(s) == s;
    assert TrimEnd(s) == s;
  }

  /** Drops the maximal prefix of non-word characters. */
  function SkipNonWord(s: string): (r: string)
    ensures |r| <= |s|
  {
    if |s| > 0 && !IsWordChar(s[0]) then SkipNonWord(s[1..]) else s
  }

  /** What is skipped is a prefix of non-word characters, and it is maximal. */
  lemma {:induction false} SkipNonWordSpec(s: string)
    ensures SkipNonWord(s) == s[|s| - |SkipNonWord(s)|..]
    ensures NoWord(s[..|s| - |SkipNonWord(s)|])
    ensures SkipNonWord(s) == [] || IsWordChar(SkipNonWord(s)[0])
  {
    if |s| > 0 && !IsWordChar(s[0]) {
      SkipNonWordSpec(s[1..]);
      var k := |s| - |SkipNonWord(s)|;
      assert s[1..][k - 1..] == s[k..];
      assert s[..k] == [s[0]] + s[1..][..k - 1];
    }
  }

  /**
   * `re.sub(r'\W+', '_', s)`: matches are leftmost and greedy, so each
   * maximal run of non-word characters becomes one underscore.
   * The result holds word characters only.
   */
  function Collapse(s: string): (r: string)
    ensures |r| <= |s|
    decreases |s|
  {
    if s == [] then []
    else if IsWordChar(s[0]) then [s[0]] + Collapse(s[1..])
    else "_" + Collapse(SkipNonWord(s[1..]))
  }

  /** The substitution leaves word characters only. */
  lemma {:induction false} CollapseAllWord(s: string)
    ensures AllWord(Collapse(s))
    decreases |s|
  {
    if s != [] {
      if IsWordChar(s[0]) {
        CollapseAllWord(s[1..]);
      } else {
        CollapseAllWord(SkipNonWord(s[1..]));
      }
    }
  }

  /** The sanitised name without its backticks. */
  function Clean(name: string): string
  {
    Collapse(Strip(name))
  }

  /**
   * `_sanitize_column_name`: a backtick, then word characters only, then a
   * backtick. No backtick, space or punctuation can appear inside the quotes.
   */
  function SanitizeColumnName(name: string): (r: string)
    ensures |r| >= 2 && r[0] == '`' && r[|r| - 1] == '`'
    ensures r[1..|r| - 1] == Clean(name)
    ensures AllWord(r[1..|r| - 1])
  {
    CollapseAllWord(Strip(name));
    "`" + Clean(name) + "`"
  }

  /** The column list `read_data` builds: each header sanitised, in file order. */
  function SanitizeColumns(headers: seq<string>): seq<string>
  {
    if headers == [] then [] else [SanitizeColumnName(headers[0])] + SanitizeColumns(headers[1..])
  }

  /** One column per header. */
  lemma {:induction false} SanitizeColumnsLength(headers: seq<string>)
    ensures |SanitizeColumns(headers)| == |headers|
  {
    if headers != [] {
      SanitizeColumnsLength(headers[1..]);
    }
  }

  /** Column `i` is the sanitised name of header `i`. */
  lemma {:induction false} SanitizeColumnsAt(headers: seq<string>, i: nat)
    requires i < |headers|
    ensures |SanitizeColumns(headers)| == |headers|
    ensures SanitizeColumns(headers)[i] == SanitizeColumnName(headers[i])
    decreases i
  {
    SanitizeColumnsLength(headers);
    if i > 0 {
      SanitizeColumnsAt(headers[1..], i - 1);
    }
  }

  // ---------------------------------------------------------------------
  // Properties of the sanitiser
  // ---------------------------------------------------------------------

  /** A string of word characters only is left unchanged by the substitution. */
  lemma {:induction false} CollapseWord(s: string)
    requires AllWord(s)
    ensures Collapse(s) == s
  {
    if s != [] {
      CollapseWord(s[1..]);
      assert [s[0]] + s[1..] == s;
    }
  }

  /** The substitution step is idempotent. */
  lemma {:induction false} CollapseIdempotent(s: string)
    ensures Collapse(Collapse(s)) == Collapse(s)
  {
    CollapseAllWord(s);
    CollapseWord(Collapse(s));
  }

  /** A suffix made of non-word characters only is skipped completely. */
  lemma {:induction false} SkipNonWordRun(run: string, b: string)
    requires NoWord(run)
    requires b == [] || IsWordChar(b[0])
    ensures SkipNonWord(run + b) == b
  {
    if run != [] {
      assert (run + b)[1..] == run[1..] + b;
      SkipNonWordRun(run[1..], b);
    } else {
      assert run + b == b;
    }
  }

  /** Skipping a non-word prefix of `a` is unaffected by what follows `a` once `a` ends in a word character. */
  lemma {:induction false} SkipNonWordAppend(a: string, b: string)
    requires a != [] && IsWordChar(a[|a| - 1])
    ensures SkipNonWord(a + b) == SkipNonWord(a) + b
    ensures SkipNonWord(a) != [] && IsWordChar(SkipNonWord(a)[|SkipNonWord(a)| - 1])
  {
    if !IsWordChar(a[0]) {
      var ab := a + b;
      assert ab[0] == a[0];
      assert ab[1..] == a[1..] + b;
      assert a[1..][|a| - 2] == a[|a| - 1];
      SkipNonWordAppend(a[1..], b);
    }
  }

  /**
   * No run of non-word characters straddles a boundary just after a word
   * character, so the substitution works on the two sides separately.
   */
  lemma {:induction false} CollapseAppend(a: string, b: string)
    requires a == [] || IsWordChar(a[|a| - 1])
    ensures Collapse(a + b) == Collapse(a) + Collapse(b)
    decreases |a|
  {
    if a == [] {
      assert a + b == b;
    } else if IsWordChar(a[0]) {
      assert a[1..] == [] || a[1..][|a| - 2] == a[|a| - 1];
      CollapseAppend(a[1..], b);
      CollapseAppendWord(a, b);
    } else {
      assert a[1..][|a| - 2] == a[|a| - 1];
      SkipNonWordAppend(a[1..], b);
      var t := SkipNonWord(a[1..]);
      CollapseAppend(t, b);
      CollapseAppendRun(a, b);
    }
  }

  /** `CollapseAppend` one step on: a leading word character is kept on both sides. */
  lemma {:induction false} CollapseAppendWord(a: string, b: string)
    requires a != [] && IsWordChar(a[0])
    requires Collapse(a[1..] + b) == Collapse(a[1..]) + Collapse(b)
    ensures Collapse(a + b) == Collapse(a) + Collapse(b)
  {
    SplitHead(a, b);
    CollapseConsWord(a[0], a[1..] + b);
    CollapseConsWord(a[0], a[1..]);
    Assoc([a[0]], Collapse(a[1..]), Collapse(b));
  }

  /** A leading word character is copied through. */
  lemma {:induction false} CollapseConsWord(c: char, t: string)
    requires IsWordChar(c)
    ensures Collapse([c] + t) == [c] + Collapse(t)
  {
    assert ([c] + t)[0] == c;
    assert ([c] + t)[1..] == t;
  }

  /** `CollapseAppend` one step on: a leading run of non-word characters is one `_` on both sides. */
  lemma {:induction false} CollapseAppendRun(a: string, b: string)
    requires a != [] && !IsWordChar(a[0])
    requires SkipNonWord(a[1..] + b) == SkipNonWord(a[1..]) + b
    requires Collapse(SkipNonWord(a[1..]) + b) == Collapse(SkipNonWord(a[1..])) + Collapse(b)
    ensures Collapse(a + b) == Collapse(a) + Collapse(b)
  {
    SplitHead(a, b);
    CollapseConsRun(a[0], a[1..] + b);
    CollapseConsRun(a[0], a[1..]);
    Assoc("_", Collapse(SkipNonWord(a[1..])), Collapse(b));
  }

  /** A leading non-word character starts a run that becomes one `_`. */
  lemma {:induction false} CollapseConsRun(c: char, t: string)
    requires !IsWordChar(c)
    ensures Collapse([c] + t) == "_" + Collapse(SkipNonWord(t))
  {
    assert ([c] + t)[0] == c;
    assert ([c] + t)[1..] == t;
  }

  /**
   * Each maximal run of non-word characters becomes exactly one `_`: a
   * run flanked by word characters (or by the ends of the string) is
   * replaced by a single underscore and nothing else changes.
   */
  lemma {:induction false} CollapseMaximalRun(a: string, run: string, b: string)
    requires a == [] || IsWordChar(a[|a| - 1])
    requires run != [] && NoWord(run)
    requires b == [] || IsWordChar(b[0])
    ensures Collapse(a + run + b) == Collapse(a) + "_" + Collapse(b)
  {
    Assoc(a, run, b);
    CollapseAppend(a, run + b);
    CollapseRun(run, b);
    Assoc(Collapse(a), "_", Collapse(b));
  }

  lemma {:induction false} CollapseRun(run: string, b: string)
    requires run != [] && NoWord(run)
    requires b == [] || IsWordChar(b[0])
    ensures Collapse(run + b) == "_" + Collapse(b)
  {
    SplitHead(run, b);
    CollapseConsRun(run[0], run[1..] + b);
    SkipNonWordRun(run[1..], b);
  }

  /** A name already made of word characters only comes back unchanged, inside backticks. */
  lemma {:induction false} SanitizeWordName(name: string)
    requires AllWord(name)
    ensures SanitizeColumnName(name) == "`" + name + "`"
  {
    assert Trimmed(name) by {
      if name != [] {
        assert IsWordChar(name[0]) && IsWordChar(name[|name| - 1]);
      }
    }
    StripTrimmed(name);
    CollapseWord(name);
  }

  /** The inner sanitisation step (strip, then substitute) is idempotent. */
  lemma {:induction false} CleanIdempotent(name: string)
    ensures Clean(Clean(name)) == Clean(name)
  {
    var c := Clean(name);
    CollapseAllWord(Strip(name));
    assert Trimmed(c) by {
      if c != [] {
        assert IsWordChar(c[0]) && IsWordChar(c[|c| - 1]);
      }
    }
    StripTrimmed(c);
    CollapseWord(c);
  }

  /** `lstrip()` removes a whitespace prefix exactly. */
  lemma {:induction false} TrimStartPrefix(pre: string, x: string)
    requires AllSpace(pre)
    requires x == [] || !IsSpace(x[0])
    ensures TrimStart(pre + x) == x
  {
    if pre == [] {
      assert pre + x == x;
    } else {
      assert (pre + x)[1..] == pre[1..] + x;
      TrimStartPrefix(pre[1..], x);
    }
  }

  /** `rstrip()` removes a whitespace suffix exactly. */
  lemma {:induction false} TrimEndSuffix(x: string, post: string)
    requires AllSpace(post)
    requires x == [] || !IsSpace(x[|x| - 1])
    ensures TrimEnd(x + post) == x
  {
    if post == [] {
      assert x + post == x;
    } else {
      assert (x + post)[..|x + post| - 1] == x + post[..|post| - 1];
      TrimEndSuffix(x, post[..|post| - 1]);
    }
  }

  /** Whitespace around a header is removed before the substitution, so it never becomes `_`. */
  lemma {:induction false} SanitizeIgnoresSurroundingSpace(pre: string, name: string, post: string)
    requires AllSpace(pre) && AllSpace(post) && Trimmed(name)
    ensures SanitizeColumnName(pre + name + post) == SanitizeColumnName(name)
  {
    StripSurrounded(pre, name, post);
    StripTrimmed(name);
  }

  /** `strip()` removes exactly the whitespace around a trimmed string. */
  lemma {:induction false} StripSurrounded(pre: string, name: string, post: string)
    requires AllSpace(pre) && AllSpace(post) && Trimmed(name)
    ensures Strip(pre + name + post) == name
  {
    assert pre + name + post == pre + (name + post);
    if name == [] {
      assert AllSpace(pre + post);
      assert name + post == post;
      TrimStartPrefix(pre + post, []);
      assert pre + post + [] == pre + (name + post);
      assert TrimEnd([]) == [];
    } else {
      assert (name + post)[0] == name[0];
      TrimStartPrefix(pre, name + post);
      TrimEndSuffix(name, post);
    }
  }

  /** On a name with no surrounding whitespace, sanitising is the substitution alone. */
  lemma {:induction false} SanitizeTrimmed(name: string)
    requires Trimmed(name)
    ensures SanitizeColumnName(name) == "`" + Collapse(name) + "`"
  {
    StripTrimmed(name);
  }

  /** The substitution on two words and the run between them. */
  lemma {:induction false} CollapseTwoWords(w1: string, sep: string, w2: string)
    requires w1 != [] && AllWord(w1) && w2 != [] && AllWord(w2)
    requires sep != [] && NoWord(sep)
    ensures Collapse(w1 + sep + w2) == w1 + "_" + w2
  {
    CollapseMaximalRun(w1, sep, w2);
    CollapseWord(w1);
    CollapseWord(w2);
  }

  /**
   * Two words separated by any run of non-word characters (spaces,
   * punctuation) become the two words joined by one `_`, e.g.
   * `Order Date` and `Order - Date` both give `Order_Date`.
   */
  lemma {:induction false} SanitizeTwoWords(w1: string, sep: string, w2: string)
    requires w1 != [] && AllWord(w1) && w2 != [] && AllWord(w2)
    requires sep != [] && NoWord(sep)
    ensures SanitizeColumnName(w1 + sep + w2) == "`" + w1 + "_" + w2 + "`"
  {
    var name := w1 + sep + w2;
    assert Trimmed(name) by {
      assert name[0] == w1[0] && IsWordChar(w1[0]);
      assert name[|name| - 1] == w2[|w2| - 1] && IsWordChar(w2[|w2| - 1]);
    }
    SanitizeTrimmed(name);
    CollapseTwoWords(w1, sep, w2);
  }
}
