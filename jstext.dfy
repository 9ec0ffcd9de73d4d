/**
 * String.prototype.trim of JavaScript (section 22.1.3.32 of ECMAScript 2024):
 * it strips WhiteSpace and LineTerminator code points from both ends.
 * JavaScript strings are sequences of UTF-16 code units; here a string is a
 * sequence of Dafny chars and every JavaScript whitespace character is a
 * single char, so trim sees the same characters either way.
 */
module JsText {
  /** WhiteSpace (tab, VT, FF, ZWNBSP and the Zs category) and LineTerminator (LF, CR, LS, PS). */
  predicate IsWhite(c: char)
  {
    c == '\U{0009}' || c == '\U{000B}' || c == '\U{000C}' || c == '\U{0020}' || c == '\U{00A0}'
    || c == '\U{FEFF}' || c == '\U{1680}' || ('\U{2000}' <= c <= '\U{200A}') || c == '\U{202F}'
    || c == '\U{205F}' || c == '\U{3000}'
    || c == '\U{000A}' || c == '\U{000D}' || c == '\U{2028}' || c == '\U{2029}'
  }

  predicate AllWhite(s: string)
  {
    forall i :: 0 <= i < |s| ==> IsWhite(s[i])
  }

  /** Neither end of s is whitespace: what trim leaves behind. */
  predicate Trimmed(s: string)
  {
    s == [] || (!IsWhite(s[0]) && !IsWhite(s[|s| - 1]))
  }

  function TrimStart(s: string): (r: string)
    ensures |r| <= |s|
  {
    if s != [] && IsWhite(s[0]) then TrimStart(s[1..]) else s
  }

  function TrimEnd(s: string): (r: string)
    ensures |r| <= |s|
  {
    if s != [] && IsWhite(s[|s| - 1]) then TrimEnd(s[..|s| - 1]) else s
  }

  /** `s.trim()`. */
  function Trim(s: string): string
  {
    TrimEnd(TrimStart(s))
  }

  /** TrimStart removes exactly a whitespace prefix and stops at the first other character. */
  lemma {:induction false} TrimStartShape(s: string)
    ensures |TrimStart(s)| <= |s|
    ensures TrimStart(s) == s[|s| - |TrimStart(s)|..]
    ensures AllWhite(s[..|s| - |TrimStart(s)|])
    ensures TrimStart(s) == [] || !IsWhite(TrimStart(s)[0])
  {
    if s != [] && IsWhite(s[0]) {
      TrimStartShape(s[1..]);
      var k := |s[1..]| - |TrimStart(s[1..])|;
      assert s[..k + 1] == [s[0]] + s[1..][..k];
    }
  }

  /** TrimEnd removes exactly a whitespace suffix and stops at the last other character. */
  lemma {:induction false} TrimEndShape(s: string)
    ensures |TrimEnd(s)| <= |s|
    ensures TrimEnd(s) == s[..|TrimEnd(s)|]
    ensures AllWhite(s[|TrimEnd(s)|..])
    ensures TrimEnd(s) == [] || !IsWhite(TrimEnd(s)[|TrimEnd(s)| - 1])
  {
    if s != [] && IsWhite(s[|s| - 1]) {
      var t := s[..|s| - 1];
      TrimEndShape(t);
      var k := |TrimEnd(t)|;
      assert s[k..] == t[k..] + [s[|s| - 1]];
    }
  }

  /**
   * The whole of trim: s is a whitespace prefix, then Trim(s), then a
   * whitespace suffix, and Trim(s) itself starts and ends with a
   * non-whitespace character unless it is empty.
   */
  lemma TrimShape(s: string)
    ensures var k := |s| - |TrimStart(s)|;
      && k + |Trim(s)| <= |s|
      && s[k..k + |Trim(s)|] == Trim(s)
      && AllWhite(s[..k])
      && AllWhite(s[k + |Trim(s)|..])
      && Trimmed(Trim(s))
  {
    var u := TrimStart(s);
    var k := |s| - |u|;
    TrimStartShape(s);
    TrimEndShape(u);
    var t := Trim(s);
    assert s[k..] == u;
    assert s[k..k + |t|] == u[..|t|];
    assert s[k + |t|..] == u[|t|..];
    if t != [] {
      assert t[0] == u[0];
    }
  }

  lemma {:induction false} TrimStartWhitePrefix(p: string, r: string)
    requires AllWhite(p)
    ensures TrimStart(p + r) == TrimStart(r)
  {
    if p != [] {
      assert (p + r)[1..] == p[1..] + r;
      TrimStartWhitePrefix(p[1..], r);
    } else {
      assert p + r == r;
    }
  }

  lemma {:induction false} TrimEndWhiteSuffix(r: string, q: string)
    requires AllWhite(q)
    ensures TrimEnd(r + q) == TrimEnd(r)
  {
    if q != [] {
      var q' := q[..|q| - 1];
      assert (r + q)[..|r + q| - 1] == r + q';
      TrimEndWhiteSuffix(r, q');
    } else {
      assert r + q == r;
    }
  }

  /** Trim is determined by its shape: whitespace around a trimmed core trims to that core. */
  lemma TrimUnique(p: string, t: string, q: string)
    requires AllWhite(p) && AllWhite(q) && Trimmed(t)
    ensures Trim(p + t + q) == t
  {
    assert p + t + q == p + (t + q);
    TrimStartWhitePrefix(p, t + q);
    if t == [] {
      assert t + q == q + [];
      TrimStartWhitePrefix(q, []);
    } else {
      assert (t + q)[0] == t[0];
      TrimEndWhiteSuffix(t, q);
    }
  }

  /** Trimming twice is trimming once. */
  lemma TrimIdempotent(s: string)
    ensures Trim(Trim(s)) == Trim(s)
  {
    TrimShape(s);
    var t := Trim(s);
    assert [] + t + [] == t;
    TrimUnique([], t, []);
  }

  /** Surrounding whitespace does not change what trim returns. */
  lemma TrimPadded(p: string, s: string, q: string)
    requires AllWhite(p) && AllWhite(q)
    ensures Trim(p + s + q) == Trim(s)
  {
    TrimShape(s);
    var t := Trim(s);
    var k := |s| - |TrimStart(s)|;
    var p0, q0 := s[..k], s[k + |t|..];
    assert s == p0 + t + q0;
    assert p + s + q == (p + p0) + t + (q0 + q);
    assert AllWhite(p + p0) by {
      forall i | 0 <= i < |p + p0|
        ensures IsWhite((p + p0)[i])
      {
        if i >= |p| {
          assert (p + p0)[i] == p0[i - |p|];
        }
      }
    }
    assert AllWhite(q0 + q) by {
      forall i | 0 <= i < |q0 + q|
        ensures IsWhite((q0 + q)[i])
      {
        if i >= |q0| {
          assert (q0 + q)[i] == q[i - |q0|];
        }
      }
    }
    TrimUnique(p + p0, t, q0 + q);
  }

  /** trim gives the empty string exactly when every character is whitespace. */
  lemma TrimEmpty(s: string)
    ensures Trim(s) == [] <==> AllWhite(s)
  {
    TrimShape(s);
    if AllWhite(s) {
      assert s == s + [] + [];
      TrimUnique(s, [], []);
    }
  }
}
