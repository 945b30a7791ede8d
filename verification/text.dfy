/**
 * The two string operations the parser applies to cell and heading texts:
 * Python's `str.strip()` and `str.split()` with no argument. Both use
 * Python's notion of whitespace (`str.isspace`).
 */
module Text {

  /** A character Python's `str.isspace` accepts: the ASCII separators
      TAB..CR and FS..US, space, NEL, NBSP and the Unicode space separators. */
  predicate IsWhitespace(c: char) {
    var n := c as int;
    || 0x09 <= n <= 0x0D
    || 0x1C <= n <= 0x20
    || n == 0x85
    || n == 0xA0
    || n == 0x1680
    || 0x2000 <= n <= 0x200A
    || n == 0x2028
    || n == 0x2029
    || n == 0x202F
    || n == 0x205F
    || n == 0x3000
  }

  ghost predicate AllWhitespace(s: string) {
    forall i :: 0 <= i < |s| ==> IsWhitespace(s[i])
  }

  ghost predicate NoWhitespace(s: string) {
    forall i :: 0 <= i < |s| ==> !IsWhitespace(s[i])
  }

  /** `r` is what is left of `s` once the leading and trailing whitespace runs
      are cut off: an infix of `s`, bounded by whitespace only, that itself
      neither starts nor ends with whitespace. */
  ghost predicate IsStripOf(s: string, r: string) {
    exists i :: IsStripAt(s, i, r)
  }

  /** `r` is the strip of `s` and starts at position `i` of `s`. */
  ghost predicate IsStripAt(s: string, i: int, r: string) {
    && (r == [] || (!IsWhitespace(r[0]) && !IsWhitespace(r[|r| - 1])))
    && 0 <= i <= |s| - |r| && s[i..i + |r|] == r
    && AllWhitespace(s[..i]) && AllWhitespace(s[i + |r|..])
  }

  /** Drops the leading whitespace run. */
  function TrimStart(s: string): string
    decreases |s|
  {
    if s != [] && IsWhitespace(s[0]) then TrimStart(s[1..]) else s
  }

  /** Drops the trailing whitespace run. */
  function TrimEnd(s: string): string
    decreases |s|
  {
    if s != [] && IsWhitespace(s[|s| - 1]) then TrimEnd(s[..|s| - 1]) else s
  }

  /** `TrimStart` keeps a suffix that starts with non-whitespace, and drops only whitespace. */
  lemma {:induction false} TrimStartIsSuffix(s: string)
    ensures var r := TrimStart(s);
            && |r| <= |s| && r == s[|s| - |r|..]
            && AllWhitespace(s[..|s| - |r|])
            && (r == [] || !IsWhitespace(r[0]))
    decreases |s|
  {
    if s != [] && IsWhitespace(s[0]) {
      TrimStartIsSuffix(s[1..]);
      var r := TrimStart(s);
      assert s[1..][|s| - 1 - |r|..] == s[|s| - |r|..];
      assert s[..|s| - |r|] == [s[0]] + s[1..][..|s| - 1 - |r|];
    }
  }

  /** `TrimEnd` keeps a prefix that ends with non-whitespace, and drops only whitespace. */
  lemma {:induction false} TrimEndIsPrefix(s: string)
    ensures var r := TrimEnd(s);
            && |r| <= |s| && r == s[..|r|]
            && AllWhitespace(s[|r|..])
            && (r == [] || !IsWhitespace(r[|r| - 1]))
    decreases |s|
  {
    if s != [] && IsWhitespace(s[|s| - 1]) {
      var p := s[..|s| - 1];
      TrimEndIsPrefix(p);
      var r := TrimEnd(s);
      assert p[..|r|] == s[..|r|];
      assert s[|r|..] == p[|r|..] + [s[|s| - 1]];
    }
  }

  /** Python's `s.strip()`. */
  function Strip(s: string): string {
    TrimEnd(TrimStart(s))
  }

  /** `Strip` cuts off exactly the leading and trailing whitespace runs. */
  lemma StripIsStrip(s: string)
    ensures IsStripOf(s, Strip(s))
  {
    var t := TrimStart(s);
    var r := TrimEnd(t);
    TrimStartIsSuffix(s);
    TrimEndIsPrefix(t);
    var i := |s| - |t|;
    assert s[i..i + |r|] == r;
    assert s[i + |r|..] == t[|r|..];
    assert IsStripAt(s, i, r);
  }

  /** Two whitespace-only prefixes, each followed by a non-whitespace character, have the same length. */
  lemma LeadingRunUnique(s: string, i1: nat, i2: nat)
    requires i1 < |s| && AllWhitespace(s[..i1]) && !IsWhitespace(s[i1])
    requires i2 < |s| && AllWhitespace(s[..i2]) && !IsWhitespace(s[i2])
    ensures i1 == i2
  {
  }

  /** Two whitespace-only suffixes, each preceded by a non-whitespace character, have the same length. */
  lemma TrailingRunUnique(s: string, j1: nat, j2: nat)
    requires 0 < j1 <= |s| && AllWhitespace(s[j1..]) && !IsWhitespace(s[j1 - 1])
    requires 0 < j2 <= |s| && AllWhitespace(s[j2..]) && !IsWhitespace(s[j2 - 1])
    ensures j1 == j2
  {
  }

  /** The strip is empty exactly when the string is all whitespace. */
  lemma StripEmptyIff(s: string, i: int, r: string)
    requires IsStripAt(s, i, r)
    ensures r == [] <==> AllWhitespace(s)
  {
    if r == [] {
      forall k | 0 <= k < |s|
        ensures IsWhitespace(s[k])
      {
        if k < i { assert s[..i][k] == s[k]; } else { assert s[i..][k - i] == s[k]; }
      }
    } else {
      assert s[i] == r[0];
    }
  }

  /** The strip of a string is unique: `IsStripOf` determines `Strip`. */
  lemma StripUnique(s: string, r1: string, r2: string)
    requires IsStripOf(s, r1) && IsStripOf(s, r2)
    ensures r1 == r2
  {
    var i1 :| IsStripAt(s, i1, r1);
    var i2 :| IsStripAt(s, i2, r2);
    StripEmptyIff(s, i1, r1);
    StripEmptyIff(s, i2, r2);
    if r1 != [] && r2 != [] {
      assert s[i1] == r1[0] && s[i2] == r2[0];
      LeadingRunUnique(s, i1, i2);
      assert s[i1 + |r1| - 1] == r1[|r1| - 1] && s[i2 + |r2| - 1] == r2[|r2| - 1];
      TrailingRunUnique(s, i1 + |r1|, i2 + |r2|);
    }
  }

  /** Stripping twice is stripping once. */
  lemma StripIdempotent(s: string)
    ensures Strip(Strip(s)) == Strip(s)
  {
    var r := Strip(s);
    StripIsStrip(s);
    StripIsStrip(r);
    assert IsStripAt(r, 0, r) by {
      assert r[0..0 + |r|] == r;
      assert r[..0] == [] && r[|r|..] == [];
    }
    StripUnique(r, Strip(r), r);
  }

  /** Python's `s.split()`: the maximal runs of non-whitespace characters, in order. */
  function Split(s: string): (r: seq<string>)
    ensures s != [] && !IsWhitespace(s[0]) ==> r != []
    decreases |s|
  {
    if s == [] then []
    else if IsWhitespace(s[0]) then Split(s[1..])
    else
      var rest := Split(s[1..]);
      if |s| > 1 && !IsWhitespace(s[1]) then [[s[0]] + rest[0]] + rest[1..]
      else [[s[0]]] + rest
  }

  /** Every token is non-empty and free of whitespace. */
  lemma {:induction false} SplitTokens(s: string)
    ensures forall k :: 0 <= k < |Split(s)| ==> Split(s)[k] != [] && NoWhitespace(Split(s)[k])
    ensures s != [] && !IsWhitespace(s[0]) ==> Split(s)[0][0] == s[0]
    decreases |s|
  {
    if s != [] {
      SplitTokens(s[1..]);
      var rest := Split(s[1..]);
      if !IsWhitespace(s[0]) && |s| > 1 && !IsWhitespace(s[1]) {
        var w := [s[0]] + rest[0];
        assert Split(s) == [w] + rest[1..];
        assert forall i :: 1 <= i < |w| ==> w[i] == rest[0][i - 1];
      }
    }
  }

  /** A non-empty word without whitespace splits into itself. */
  lemma {:induction false} SplitWord(w: string)
    requires w != [] && NoWhitespace(w)
    ensures Split(w) == [w]
    decreases |w|
  {
    if |w| > 1 {
      SplitWord(w[1..]);
      assert [w[0]] + w[1..] == w;
    } else {
      assert w == [w[0]];
    }
  }

  /** Splitting at a whitespace character splits the two sides independently. */
  lemma {:induction false} SplitAtWhitespace(a: string, c: char, b: string)
    requires IsWhitespace(c)
    ensures Split(a + [c] + b) == Split(a) + Split(b)
    decreases |a|
  {
    var s := a + [c] + b;
    if a == [] {
      assert s[1..] == b;
    } else {
      var t := a[1..] + [c] + b;
      assert s[1..] == t;
      SplitAtWhitespace(a[1..], c, b);
      var pa, pb := Split(a[1..]), Split(b);
      if IsWhitespace(a[0]) {
        assert Split(s) == Split(t);
      } else if |a| == 1 {
        assert s[1] == c;
        assert a[1..] == [];
        assert Split(s) == [[a[0]]] + Split(t);
      } else if IsWhitespace(a[1]) {
        assert s[1] == a[1];
        assert Split(s) == [[a[0]]] + Split(t);
      } else {
        assert s[1] == a[1];
        assert pa != [];
        assert Split(s) == [[a[0]] + Split(t)[0]] + Split(t)[1..];
        assert (pa + pb)[0] == pa[0];
        assert (pa + pb)[1..] == pa[1..] + pb;
      }
    }
  }

  /** Joins words with single spaces. */
  function JoinSpace(ws: seq<string>): string {
    if ws == [] then [] else if |ws| == 1 then ws[0] else ws[0] + " " + JoinSpace(ws[1..])
  }

  /** Splitting a space-joined list of words gives the words back. */
  lemma {:induction false} SplitJoinSpace(ws: seq<string>)
    requires forall k :: 0 <= k < |ws| ==> ws[k] != [] && NoWhitespace(ws[k])
    ensures Split(JoinSpace(ws)) == ws
    decreases |ws|
  {
    if |ws| == 1 {
      SplitWord(ws[0]);
    } else if |ws| > 1 {
      SplitWord(ws[0]);
      SplitJoinSpace(ws[1..]);
      SplitAtWhitespace(ws[0], ' ', JoinSpace(ws[1..]));
      assert [ws[0]] + ws[1..] == ws;
    }
  }
}
