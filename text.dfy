/** The string operations the schema setters, validators and query parser apply:
    String.prototype.trim, toLowerCase, includes, split and a suffix test.
    Strings are sequences of Unicode scalar values. */
module Text {
  import opened Wrappers

  /** JavaScript's WhiteSpace and LineTerminator code points: the characters trim removes. */
  predicate IsSpace(c: char) {
    var n := c as int;
    n == 0x09 || n == 0x0A || n == 0x0B || n == 0x0C || n == 0x0D || n == 0x20
    || n == 0xA0 || n == 0x1680 || (0x2000 <= n <= 0x200A) || n == 0x2028 || n == 0x2029
    || n == 0x202F || n == 0x205F || n == 0x3000 || n == 0xFEFF
  }

  predicate AllSpace(s: string) {
    forall i :: 0 <= i < |s| ==> IsSpace(s[i])
  }

  /** s without its leading white space: the longest suffix of s that does not start with a space. */
  function TrimStart(s: string): (r: string)
    ensures |r| <= |s| && r == s[|s| - |r|..]
    ensures AllSpace(s[..|s| - |r|])
    ensures r == [] || !IsSpace(r[0])
    decreases |s|
  {
    if s != [] && IsSpace(s[0]) then
      var r := TrimStart(s[1..]);
      assert s[..|s| - |r|] == [s[0]] + s[1..][..|s| - 1 - |r|];
      r
    else s
  }

  /** s without its trailing white space: the longest prefix of s that does not end with a space. */
  function TrimEnd(s: string): (r: string)
    ensures |r| <= |s| && r == s[..|r|]
    ensures AllSpace(s[|r|..])
    ensures r == [] || !IsSpace(r[|r| - 1])
    decreases |s|
  {
    if s != [] && IsSpace(s[|s| - 1]) then
      var r := TrimEnd(s[..|s| - 1]);
      assert s[|r|..] == s[..|s| - 1][|r|..] + [s[|s| - 1]];
      r
    else s
  }

  /** Neither end of s is white space. */
  predicate Trimmed(s: string) {
    s == [] || (!IsSpace(s[0]) && !IsSpace(s[|s| - 1]))
  }

  /** String.prototype.trim. */
  function Trim(s: string): (r: string)
    ensures Trimmed(r)
  {
    TrimEnd(TrimStart(s))
  }

  /** A trimmed string is its own trim. */
  lemma TrimOfTrimmed(s: string)
    requires Trimmed(s)
    ensures Trim(s) == s
  {
  }

  lemma {:induction false} TrimStartSkipsPadding(p: string, s: string)
    requires AllSpace(p)
    ensures TrimStart(p + s) == TrimStart(s)
    decreases |p|
  {
    if p == [] {
      assert p + s == s;
    } else {
      assert (p + s)[0] == p[0] && (p + s)[1..] == p[1..] + s;
      TrimStartSkipsPadding(p[1..], s);
    }
  }

  lemma {:induction false} TrimEndSkipsPadding(s: string, q: string)
    requires AllSpace(q)
    ensures TrimEnd(s + q) == TrimEnd(s)
    decreases |q|
  {
    if q == [] {
      assert s + q == s;
    } else {
      var n := |s + q|;
      assert (s + q)[n - 1] == q[|q| - 1] && (s + q)[..n - 1] == s + q[..|q| - 1];
      TrimEndSkipsPadding(s, q[..|q| - 1]);
    }
  }

  /** Trailing white space never survives trim, wherever the leading white space ends. */
  lemma {:induction false} TrimIgnoresTrailing(s: string, q: string)
    requires AllSpace(q)
    ensures Trim(s + q) == Trim(s)
    decreases |s|
  {
    if s == [] {
      assert s + q == q;
      assert TrimStart(q) == [];
    } else if IsSpace(s[0]) {
      assert (s + q)[0] == s[0] && (s + q)[1..] == s[1..] + q;
      TrimIgnoresTrailing(s[1..], q);
    } else {
      assert (s + q)[0] == s[0];
      TrimEndSkipsPadding(s, q);
    }
  }

  /** Surrounding white space does not change the trimmed value. */
  lemma {:induction false} TrimIgnoresPadding(p: string, s: string, q: string)
    requires AllSpace(p) && AllSpace(q)
    ensures Trim(p + s + q) == Trim(s)
  {
    calc {
      Trim(p + s + q);
      { assert p + s + q == p + (s + q); }
      TrimEnd(TrimStart(p + (s + q)));
      { TrimStartSkipsPadding(p, s + q); }
      Trim(s + q);
      { TrimIgnoresTrailing(s, q); }
      Trim(s);
    }
  }

  /** Trimming twice is trimming once. */
  lemma {:induction false} TrimIdempotent(s: string)
    ensures Trim(Trim(s)) == Trim(s)
  {
    TrimOfTrimmed(Trim(s));
  }

  /** toLowerCase on one character; only the ASCII letters are folded. */
  function LowerChar(c: char): char {
    if 'A' <= c <= 'Z' then (c as int + 32) as char else c
  }

  /** String.prototype.toLowerCase, character by character. */
  function ToLower(s: string): (r: string)
    ensures |r| == |s| && forall i :: 0 <= i < |s| ==> r[i] == LowerChar(s[i])
    decreases |s|
  {
    if s == [] then [] else [LowerChar(s[0])] + ToLower(s[1..])
  }

  /** No character of s is an upper-case ASCII letter. */
  predicate IsLower(s: string) {
    forall i :: 0 <= i < |s| ==> !('A' <= s[i] <= 'Z')
  }

  /** Lower-casing yields a lower-case string and keeps a trimmed one trimmed. */
  lemma LowerIsLower(s: string)
    ensures IsLower(ToLower(s))
    ensures Trimmed(s) ==> Trimmed(ToLower(s))
  {
    if s != [] {
      LowerKeepsSpace(s[0]);
      LowerKeepsSpace(s[|s| - 1]);
    }
  }

  lemma ToLowerIdempotent(s: string)
    ensures ToLower(ToLower(s)) == ToLower(s)
  {
  }

  lemma LowerKeepsSpace(c: char)
    ensures IsSpace(LowerChar(c)) == IsSpace(c)
  {
  }

  /** Lower-casing and trimming commute: no space is a letter and no letter is a space. */
  lemma {:induction false} TrimStartLower(s: string)
    ensures TrimStart(ToLower(s)) == ToLower(TrimStart(s))
    decreases |s|
  {
    if s != [] {
      var l := ToLower(s);
      assert l[0] == LowerChar(s[0]);
      LowerKeepsSpace(s[0]);
      if IsSpace(s[0]) {
        assert l[1..] == ToLower(s[1..]);
        TrimStartLower(s[1..]);
      }
    }
  }

  lemma {:induction false} TrimEndLower(s: string)
    ensures TrimEnd(ToLower(s)) == ToLower(TrimEnd(s))
    decreases |s|
  {
    if s != [] {
      var n := |s|;
      var l := ToLower(s);
      assert l[n - 1] == LowerChar(s[n - 1]);
      LowerKeepsSpace(s[n - 1]);
      if IsSpace(s[n - 1]) {
        assert l[..n - 1] == ToLower(s[..n - 1]);
        TrimEndLower(s[..n - 1]);
      }
    }
  }

  lemma {:induction false} TrimLowerCommute(s: string)
    ensures Trim(ToLower(s)) == ToLower(Trim(s))
  {
    TrimStartLower(s);
    TrimEndLower(TrimStart(s));
  }

  /** sub occurs in s at index i. */
  predicate OccursAt(s: string, sub: string, i: int) {
    0 <= i && i + |sub| <= |s| && s[i..i + |sub|] == sub
  }

  /** String.prototype.includes. */
  function Contains(s: string, sub: string): (r: bool)
    ensures sub == [] ==> r
    ensures r ==> |sub| <= |s|
    decreases |s|
  {
    if |sub| > |s| then false
    else if s[..|sub|] == sub then true
    else Contains(s[1..], sub)
  }

  /** Contains holds exactly when sub occurs somewhere in s. */
  lemma {:induction false} ContainsSpec(s: string, sub: string)
    ensures Contains(s, sub) <==> exists i :: OccursAt(s, sub, i)
    decreases |s|
  {
    if |sub| > |s| {
    } else if s[..|sub|] == sub {
      assert OccursAt(s, sub, 0);
    } else {
      ContainsSpec(s[1..], sub);
      if Contains(s[1..], sub) {
        var i :| OccursAt(s[1..], sub, i);
        assert s[i + 1..i + 1 + |sub|] == s[1..][i..i + |sub|];
        assert OccursAt(s, sub, i + 1);
      }
      if exists i :: OccursAt(s, sub, i) {
        var i :| OccursAt(s, sub, i);
        assert i != 0;
        assert s[i..i + |sub|] == s[1..][i - 1..i - 1 + |sub|];
        assert OccursAt(s[1..], sub, i - 1);
      }
    }
  }

  /** String.prototype.length: the number of UTF-16 code units, two for a code point above
      U+FFFF (a surrogate pair), one for any other. */
  function Utf16Length(s: string): (n: nat)
    ensures |s| <= n <= 2 * |s|
    decreases |s|
  {
    if s == [] then 0 else (if s[0] as int >= 0x10000 then 2 else 1) + Utf16Length(s[1..])
  }

  /** On text without astral characters the JavaScript length is the number of characters. */
  lemma {:induction false} Utf16LengthOfBmp(s: string)
    requires forall i :: 0 <= i < |s| ==> s[i] as int < 0x10000
    ensures Utf16Length(s) == |s|
    decreases |s|
  {
    if s != [] {
      assert s[0] as int < 0x10000;
      Utf16LengthOfBmp(s[1..]);
    }
  }

  /** s ends with suf. */
  predicate EndsWith(s: string, suf: string) {
    |suf| <= |s| && s[|s| - |suf|..] == suf
  }

  /** The part of s before the first sep: element 0 of s.split(sep). */
  function Before(s: string, sep: char): (r: string)
    ensures |r| <= |s| && r == s[..|r|] && sep !in r
    ensures |r| < |s| ==> s[|r|] == sep
    decreases |s|
  {
    if s == [] || s[0] == sep then [] else [s[0]] + Before(s[1..], sep)
  }

  /** The part of s after the first sep, or None when s holds no sep. */
  function After(s: string, sep: char): (r: Option<string>)
    ensures r.None? <==> sep !in s
    ensures r.Some? ==> s == Before(s, sep) + [sep] + r.value
  {
    var b := Before(s, sep);
    if |b| == |s| then None else Some(s[|b| + 1..])
  }

  /** Element 1 of s.split(sep): between the first and the second sep, or undefined (None). */
  function SecondPart(s: string, sep: char): (r: Option<string>)
    ensures r.None? <==> sep !in s
    ensures r.Some? ==> var start := |Before(s, sep)| + 1;
                        sep !in r.value && start + |r.value| <= |s| && s[start..start + |r.value|] == r.value
                        && (start + |r.value| == |s| || s[start + |r.value|] == sep)
  {
    match After(s, sep)
    case None => None
    case Some(rest) => Some(Before(rest, sep))
  }

  /** Splitting undoes joining: a word without sep followed by sep comes back as the first part. */
  lemma {:induction false} SplitJoin(w: string, sep: char, rest: string)
    requires sep !in w
    ensures Before(w + [sep] + rest, sep) == w
    ensures After(w + [sep] + rest, sep) == Some(rest)
    decreases |w|
  {
    if w == [] {
      assert w + [sep] + rest == [sep] + rest;
    } else {
      assert (w + [sep] + rest)[0] == w[0];
      assert (w + [sep] + rest)[1..] == w[1..] + [sep] + rest;
      SplitJoin(w[1..], sep, rest);
    }
  }

  lemma {:induction false} BeforeWithoutSep(w: string, sep: char)
    requires sep !in w
    ensures Before(w, sep) == w && After(w, sep).None?
  {
  }
}
