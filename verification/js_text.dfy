/** JavaScript's String.prototype.trim, which the add handler applies to the typed text. */
module JsText {

  /** The code points trim() strips: ECMAScript WhiteSpace (tab, vertical tab, form feed,
      the byte order mark and every Unicode space separator) and LineTerminator. */
  predicate IsWhitespace(c: char) {
    || c == '\t' || c == '\n' || c == '\U{000B}' || c == '\U{000C}' || c == '\r'
    || c == ' ' || c == '\U{00A0}' || c == '\U{1680}'
    || ('\U{2000}' <= c <= '\U{200A}')
    || c == '\U{2028}' || c == '\U{2029}' || c == '\U{202F}' || c == '\U{205F}'
    || c == '\U{3000}' || c == '\U{FEFF}'
  }

  predicate AllWhitespace(s: string) {
    forall i :: 0 <= i < |s| ==> IsWhitespace(s[i])
  }

  /** Drops the leading whitespace. */
  function TrimStart(s: string): (r: string)
    ensures |r| <= |s|
    ensures r == [] || !IsWhitespace(r[0])
  {
    if s == [] || !IsWhitespace(s[0]) then s else TrimStart(s[1..])
  }

  /** Drops the trailing whitespace. */
  function TrimEnd(s: string): (r: string)
    ensures |r| <= |s|
    ensures r == [] || !IsWhitespace(r[|r| - 1])
  {
    if s == [] || !IsWhitespace(s[|s| - 1]) then s else TrimEnd(s[..|s| - 1])
  }

  /** Drops the whitespace at both ends. */
  function Trim(s: string): (r: string)
    ensures |r| <= |s|
    ensures r == [] || (!IsWhitespace(r[0]) && !IsWhitespace(r[|r| - 1]))
  {
    var u := TrimStart(s);
    TrimEndSpec(u);
    TrimEnd(u)
  }

  /** What TrimStart leaves is a suffix of s that does not start with whitespace, and
      everything it dropped was whitespace. */
  lemma {:induction false} TrimStartSpec(s: string)
    ensures |TrimStart(s)| <= |s| && TrimStart(s) == s[|s| - |TrimStart(s)|..]
    ensures AllWhitespace(s[..|s| - |TrimStart(s)|])
    ensures TrimStart(s) == [] || !IsWhitespace(TrimStart(s)[0])
  {
    if s != [] && IsWhitespace(s[0]) {
      TrimStartSpec(s[1..]);
      var k := |s| - |TrimStart(s)|;
      assert s[1..][k - 1..] == s[k..];
      forall i | 0 <= i < k ensures IsWhitespace(s[i]) {
        if i > 0 {
          assert s[i] == s[1..][..k - 1][i - 1];
        }
      }
    }
  }

  /** What TrimEnd leaves is a prefix of s that does not end with whitespace, and
      everything it dropped was whitespace. */
  lemma {:induction false} TrimEndSpec(s: string)
    ensures |TrimEnd(s)| <= |s| && TrimEnd(s) == s[..|TrimEnd(s)|]
    ensures AllWhitespace(s[|TrimEnd(s)|..])
    ensures TrimEnd(s) == [] || !IsWhitespace(TrimEnd(s)[|TrimEnd(s)| - 1])
  {
    if s != [] && IsWhitespace(s[|s| - 1]) {
      var init := s[..|s| - 1];
      TrimEndSpec(init);
      var m := |TrimEnd(s)|;
      assert init[..m] == s[..m];
      forall i | m <= i < |s| ensures IsWhitespace(s[i]) {
        if i < |s| - 1 {
          assert s[i] == init[m..][i - m];
        }
      }
    }
  }

  /** The trimmed text is empty exactly when the input is blank: this is the test that
      makes the add handler ignore a submission. */
  lemma TrimEmptyIff(s: string)
    ensures Trim(s) == [] <==> AllWhitespace(s)
  {
    TrimStartSpec(s);
    TrimEndSpec(TrimStart(s));
    var u := TrimStart(s);
    var k := |s| - |u|;
    if u != [] {
      // a non-blank remainder starts with a character of s that is not whitespace
      assert u[0] == s[k];
    }
    if Trim(s) == [] {
      assert u[0..] == u;
      assert s == s[..k];
    }
  }

  /** The trimmed text is the infix of s between a blank prefix and a blank suffix, and it
      neither starts nor ends with whitespace. */
  lemma TrimIsInfix(s: string) returns (k: nat)
    ensures k + |Trim(s)| <= |s|
    ensures Trim(s) == s[k..k + |Trim(s)|]
    ensures AllWhitespace(s[..k]) && AllWhitespace(s[k + |Trim(s)|..])
    ensures Trim(s) == [] || (!IsWhitespace(Trim(s)[0]) && !IsWhitespace(Trim(s)[|Trim(s)| - 1]))
  {
    var u := TrimStart(s);
    TrimStartSpec(s);
    TrimEndSpec(u);
    var r := TrimEnd(u);
    assert Trim(s) == r;
    k := |s| - |u|;
    assert r == s[k..][..|r|] == s[k..k + |r|];
    assert AllWhitespace(s[k + |r|..]) by {
      assert s[k + |r|..] == u[|r|..];
    }
    if r != [] {
      assert r[0] == u[0];
    }
  }

  /** Trimming twice is trimming once. */
  lemma TrimIdempotent(s: string)
    ensures Trim(Trim(s)) == Trim(s)
  {
    var r := Trim(s);
    if r != [] {
      var k := TrimIsInfix(s);
      assert TrimStart(r) == r;
      assert TrimEnd(r) == r;
    }
  }
}
