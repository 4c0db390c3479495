/** The handful of JavaScript string operations the transcript worker relies on
    (`trim`, `includes`, `endsWith`, `toLowerCase`, `join`), each restricted to
    ASCII: white space is the six ASCII characters `\s` and `trim` remove, and
    lower-casing maps only `A`-`Z`. */
module Text {

  /** Space, tab, line feed, vertical tab, form feed and carriage return. */
  predicate IsWhitespace(c: char) {
    c == ' ' || c == '\t' || c == '\n' || c == '\U{000B}' || c == '\U{000C}' || c == '\r'
  }

  predicate AllWhitespace(s: string) {
    forall i :: 0 <= i < |s| ==> IsWhitespace(s[i])
  }

  /** Removes leading white space: the result is a suffix of `s` that does
      not start with white space (TrimStartRemovesWhitespace says what went). */
  function TrimStart(s: string): (r: string)
    ensures |r| <= |s| && r == s[|s| - |r|..]
    ensures r == [] || !IsWhitespace(r[0])
  {
    if s != [] && IsWhitespace(s[0]) then TrimStart(s[1..]) else s
  }

  /** Removes trailing white space: the result is a prefix of `s` that does
      not end with white space (TrimEndRemovesWhitespace says what went). */
  function TrimEnd(s: string): (r: string)
    ensures |r| <= |s| && r == s[..|r|]
    ensures r == [] || !IsWhitespace(r[|r| - 1])
  {
    if s != [] && IsWhitespace(s[|s| - 1]) then TrimEnd(s[..|s| - 1]) else s
  }

  /** What TrimStart removes is white space. */
  lemma {:induction false} TrimStartRemovesWhitespace(s: string)
    ensures AllWhitespace(s[..|s| - |TrimStart(s)|])
  {
    if s != [] && IsWhitespace(s[0]) {
      var r := TrimStart(s[1..]);
      TrimStartRemovesWhitespace(s[1..]);
      var n := |s| - |r|;
      forall i | 0 <= i < n
        ensures IsWhitespace(s[..n][i])
      {
        if i > 0 {
          assert s[..n][i] == s[1..][..n - 1][i - 1];
        }
      }
    }
  }

  /** What TrimEnd removes is white space. */
  lemma {:induction false} TrimEndRemovesWhitespace(s: string)
    ensures AllWhitespace(s[|TrimEnd(s)|..])
  {
    if s != [] && IsWhitespace(s[|s| - 1]) {
      var r := TrimEnd(s[..|s| - 1]);
      TrimEndRemovesWhitespace(s[..|s| - 1]);
      assert s[|r|..] == s[..|s| - 1][|r|..] + [s[|s| - 1]];
    }
  }

  /** String.prototype.trim. */
  function Trim(s: string): (r: string)
    ensures |r| <= |s|
    ensures r == [] || (!IsWhitespace(r[0]) && !IsWhitespace(r[|r| - 1]))
  {
    TrimStart(TrimEnd(s))
  }

  /** The trim is the middle of the string: what lies before and after it
      is white space. */
  lemma TrimIsInfix(s: string)
    ensures var e := TrimEnd(s); var r := Trim(s);
      |r| <= |e| <= |s| && r == s[|e| - |r|..|e|] &&
      AllWhitespace(s[..|e| - |r|]) && AllWhitespace(s[|e|..])
  {
    var e := TrimEnd(s);
    TrimEndRemovesWhitespace(s);
    TrimStartRemovesWhitespace(e);
    assert s[..|e|] == e;
    assert s[..|e| - |Trim(s)|] == e[..|e| - |Trim(s)|];
  }

  /** Trimming leaves nothing exactly when the string is all white space. */
  lemma TrimEmptyIff(s: string)
    ensures Trim(s) == [] <==> AllWhitespace(s)
  {
    TrimIsInfix(s);
    if Trim(s) == [] {
      BlankPartsBlank(s, |TrimEnd(s)|);
    } else {
      assert Trim(s)[0] == s[|TrimEnd(s)| - |Trim(s)|];
    }
  }

  lemma BlankPartsBlank(s: string, n: nat)
    requires n <= |s| && AllWhitespace(s[..n]) && AllWhitespace(s[n..])
    ensures AllWhitespace(s)
  {
    forall i | 0 <= i < |s| ensures IsWhitespace(s[i]) {
      if i < n {
        assert s[i] == s[..n][i];
      } else {
        assert s[i] == s[n..][i - n];
      }
    }
  }

  /** A string with no white space at either end is its own trim. */
  lemma TrimOfTrimmed(t: string)
    requires t == [] || (!IsWhitespace(t[0]) && !IsWhitespace(t[|t| - 1]))
    ensures Trim(t) == t
  {
  }

  /** Trailing white space of `[c] + x` depends only on `c` and on what
      TrimEnd leaves of `x`. */
  lemma {:induction false} TrimEndCons(c: char, x: string)
    ensures TrimEnd([c] + x) == if TrimEnd(x) == [] && IsWhitespace(c) then [] else [c] + TrimEnd(x)
  {
    if x != [] && IsWhitespace(x[|x| - 1]) {
      assert ([c] + x)[..|x|] == [c] + x[..|x| - 1];
      TrimEndCons(c, x[..|x| - 1]);
    }
  }

  /** Hence TrimEnd of a longer string after a common prefix is determined by
      TrimEnd of the rest. */
  lemma {:induction false} TrimEndPrefix(w: string, x: string)
    ensures TrimEnd(w + x) == if TrimEnd(x) == [] then TrimEnd(w) else w + TrimEnd(x)
  {
    if w == [] {
      assert w + x == x;
    } else {
      assert w + x == [w[0]] + (w[1..] + x);
      TrimEndPrefix(w[1..], x);
      TrimEndCons(w[0], w[1..] + x);
      if TrimEnd(x) == [] {
        assert w == [w[0]] + w[1..];
        TrimEndCons(w[0], w[1..]);
      } else {
        assert w + TrimEnd(x) == [w[0]] + (w[1..] + TrimEnd(x));
      }
    }
  }

  lemma {:induction false} TrimEndDropsWhitespaceSuffix(x: string, w: string)
    requires AllWhitespace(w)
    ensures TrimEnd(x + w) == TrimEnd(x)
  {
    if w != [] {
      assert (x + w)[..|x + w| - 1] == x + w[..|w| - 1];
      TrimEndDropsWhitespaceSuffix(x, w[..|w| - 1]);
    } else {
      assert x + w == x;
    }
  }

  lemma {:induction false} TrimStartDropsWhitespacePrefix(w: string, x: string)
    requires AllWhitespace(w)
    ensures TrimStart(w + x) == TrimStart(x)
  {
    if w != [] {
      assert (w + x)[1..] == w[1..] + x;
      TrimStartDropsWhitespacePrefix(w[1..], x);
    } else {
      assert w + x == x;
    }
  }

  /** White space around a string does not change its trim. */
  lemma TrimIgnoresPadding(before: string, s: string, after: string)
    requires AllWhitespace(before) && AllWhitespace(after)
    ensures Trim(before + s + after) == Trim(s)
  {
    TrimEndDropsWhitespaceSuffix(before + s, after);
    TrimEndPrefix(before, s);
    if TrimEnd(s) == [] {
      assert TrimEnd(before) == [];
    } else {
      TrimStartDropsWhitespacePrefix(before, TrimEnd(s));
    }
  }

  /** `t` occurs in `s` starting at index `i`. */
  predicate OccursAt(s: string, t: string, i: nat) {
    i + |t| <= |s| && s[i..i + |t|] == t
  }

  predicate StartsWith(s: string, prefix: string) {
    |prefix| <= |s| && s[..|prefix|] == prefix
  }

  /** String.prototype.endsWith. */
  predicate EndsWith(s: string, suffix: string) {
    |suffix| <= |s| && s[|s| - |suffix|..] == suffix
  }

  /** String.prototype.includes, as a scan over the start positions. */
  predicate Contains(s: string, t: string)
    decreases |s|
  {
    StartsWith(s, t) || (s != [] && Contains(s[1..], t))
  }

  /** The scan finds `t` exactly when `t` occurs somewhere in `s`. */
  lemma {:induction false} ContainsIff(s: string, t: string)
    ensures Contains(s, t) <==> exists i: nat :: OccursAt(s, t, i)
    decreases |s|
  {
    if StartsWith(s, t) {
      assert OccursAt(s, t, 0);
    }
    if s != [] {
      ContainsIff(s[1..], t);
      if Contains(s[1..], t) {
        var i: nat :| OccursAt(s[1..], t, i);
        assert s[i + 1..i + 1 + |t|] == s[1..][i..i + |t|];
        assert OccursAt(s, t, i + 1);
      }
      if i: nat :| OccursAt(s, t, i) {
        if i > 0 {
          assert s[1..][i - 1..i - 1 + |t|] == s[i..i + |t|];
          assert OccursAt(s[1..], t, i - 1);
        }
      }
    } else {
      if i: nat :| OccursAt(s, t, i) {
        assert StartsWith(s, t);
      }
    }
  }

  /** An occurrence of `t + u` is an occurrence of `t` and of `u`. */
  lemma ContainsParts(s: string, t: string, u: string)
    requires Contains(s, t + u)
    ensures Contains(s, t) && Contains(s, u)
  {
    ContainsIff(s, t + u);
    var i: nat :| OccursAt(s, t + u, i);
    assert s[i..i + |t|] == (t + u)[..|t|] == t;
    assert s[i + |t|..i + |t| + |u|] == (t + u)[|t|..] == u;
    assert OccursAt(s, t, i) && OccursAt(s, u, i + |t|);
    ContainsIff(s, t);
    ContainsIff(s, u);
  }

  /** A string ends with `t` only if it contains `t`. */
  lemma EndsWithContains(s: string, t: string)
    requires EndsWith(s, t)
    ensures Contains(s, t)
  {
    assert OccursAt(s, t, |s| - |t|);
    ContainsIff(s, t);
  }

  /** ASCII lower-casing of one character. */
  function LowerChar(c: char): char {
    if 'A' <= c <= 'Z' then (c as int + 32) as char else c
  }

  /** String.prototype.toLowerCase, restricted to ASCII letters. */
  function ToLower(s: string): string {
    seq(|s|, i requires 0 <= i < |s| => LowerChar(s[i]))
  }

  /** Array.prototype.join: the pieces with `sep` between each neighbouring pair. */
  function Join(pieces: seq<string>, sep: string): string {
    if |pieces| == 0 then ""
    else if |pieces| == 1 then pieces[0]
    else pieces[0] + sep + Join(pieces[1..], sep)
  }

  /** Joining non-empty pieces starts with the first character of the first
      piece and ends with the last character of the last piece. */
  lemma {:induction false} JoinEnds(pieces: seq<string>, sep: string)
    requires |pieces| > 0
    requires forall k :: 0 <= k < |pieces| ==> pieces[k] != []
    ensures |Join(pieces, sep)| > 0
    ensures Join(pieces, sep)[0] == pieces[0][0]
    ensures Join(pieces, sep)[|Join(pieces, sep)| - 1] == pieces[|pieces| - 1][|pieces[|pieces| - 1]| - 1]
  {
    if |pieces| > 1 {
      var rest := pieces[1..];
      assert forall k :: 0 <= k < |rest| ==> rest[k] == pieces[k + 1];
      JoinEnds(rest, sep);
      var j := Join(rest, sep);
      assert Join(pieces, sep) == pieces[0] + sep + j;
      assert rest[|rest| - 1] == pieces[|pieces| - 1];
    }
  }
}
