/** The parts of ECMAScript's String that the scraper relies on. */
module JsString {

  /**
   * The characters `String.prototype.trim` removes: ECMAScript's WhiteSpace
   * (TAB, VT, FF, ZWNBSP and every Zs character) and LineTerminator (LF, CR, LS, PS).
   */
  predicate IsWhitespace(c: char) {
    || c == '\t' || c == '\n' || c == '\U{B}' || c == '\U{C}' || c == '\r' || c == ' '
    || c == '\U{A0}' || c == '\U{1680}' || ('\U{2000}' <= c <= '\U{200A}')
    || c == '\U{2028}' || c == '\U{2029}' || c == '\U{202F}' || c == '\U{205F}'
    || c == '\U{3000}' || c == '\U{FEFF}'
  }

  /** `indexOf` for one character: the position of the first `c`, or `|s|` when there is none. */
  function IndexOf(s: string, c: char): (i: nat)
    ensures i <= |s|
    ensures i < |s| ==> s[i] == c
    ensures forall k :: 0 <= k < i ==> s[k] != c
  {
    if s == [] then 0 else if s[0] == c then 0 else 1 + IndexOf(s[1..], c)
  }

  predicate AllWhitespace(s: string) {
    forall k :: 0 <= k < |s| ==> IsWhitespace(s[k])
  }

  /** Neither end of `s` is whitespace. */
  predicate NoEdgeWhitespace(s: string) {
    s == [] || (!IsWhitespace(s[0]) && !IsWhitespace(s[|s| - 1]))
  }

  /** The number of whitespace characters `s` starts with. */
  function LeadingWhitespace(s: string): (n: nat)
    ensures n <= |s|
  {
    if s == [] || !IsWhitespace(s[0]) then 0 else 1 + LeadingWhitespace(s[1..])
  }

  /** The leading run is all whitespace and is followed by a character that is not. */
  lemma {:induction false} LeadingWhitespaceSpec(s: string)
    ensures AllWhitespace(s[..LeadingWhitespace(s)])
    ensures LeadingWhitespace(s) < |s| ==> !IsWhitespace(s[LeadingWhitespace(s)])
    decreases |s|
  {
    if s != [] && IsWhitespace(s[0]) {
      var t := s[1..];
      var n := LeadingWhitespace(t);
      assert LeadingWhitespace(s) == n + 1;
      assert AllWhitespace(t[..n]) && (n < |t| ==> !IsWhitespace(t[n])) by {
        LeadingWhitespaceSpec(t);
      }
      assert AllWhitespace(s[..n + 1]) by {
        var w := s[..n + 1];
        forall k | 0 <= k < |w| ensures IsWhitespace(w[k]) {
          if k > 0 { assert w[k] == t[..n][k - 1]; }
        }
      }
      if n < |t| { assert s[n + 1] == t[n]; }
    }
  }

  /** The number of whitespace characters `s` ends with. */
  function TrailingWhitespace(s: string): (n: nat)
    ensures n <= |s|
  {
    if s == [] || !IsWhitespace(s[|s| - 1]) then 0 else 1 + TrailingWhitespace(s[..|s| - 1])
  }

  /** The trailing run is all whitespace and is preceded by a character that is not. */
  lemma {:induction false} TrailingWhitespaceSpec(s: string)
    ensures AllWhitespace(s[|s| - TrailingWhitespace(s)..])
    ensures TrailingWhitespace(s) < |s| ==> !IsWhitespace(s[|s| - TrailingWhitespace(s) - 1])
    decreases |s|
  {
    if s != [] && IsWhitespace(s[|s| - 1]) {
      var p := s[..|s| - 1];
      var m := TrailingWhitespace(p);
      assert TrailingWhitespace(s) == m + 1;
      assert AllWhitespace(p[|p| - m..]) && (m < |p| ==> !IsWhitespace(p[|p| - m - 1])) by {
        TrailingWhitespaceSpec(p);
      }
      assert AllWhitespace(s[|s| - (m + 1)..]) by {
        var w := s[|s| - (m + 1)..];
        forall k | 0 <= k < |w| ensures IsWhitespace(w[k]) {
          if k < m { assert w[k] == p[|p| - m..][k]; }
        }
      }
      if m < |p| { assert s[|s| - m - 2] == p[|p| - m - 1]; }
    }
  }

  /** `String.prototype.trim`: `s` without its leading and trailing whitespace. */
  function Trim(s: string): (r: string)
    ensures |r| <= |s|
  {
    var t := s[LeadingWhitespace(s)..];
    t[..|t| - TrailingWhitespace(t)]
  }

  /**
   * Trim as a relation: `r` is a slice of `s` with no whitespace at its ends, and
   * everything of `s` outside the slice is whitespace.
   */
  ghost predicate IsTrimOf(s: string, r: string) {
    exists i, j :: 0 <= i <= j <= |s| && r == s[i..j]
      && AllWhitespace(s[..i]) && AllWhitespace(s[j..]) && NoEdgeWhitespace(r)
  }

  /** Trim's result satisfies the relation. */
  lemma TrimIsTrimOf(s: string)
    ensures IsTrimOf(s, Trim(s))
  {
    var i := LeadingWhitespace(s);
    var u := s[i..];
    var n := TrailingWhitespace(u);
    var j := i + |u| - n;
    LeadingWhitespaceSpec(s);
    TrailingWhitespaceSpec(u);
    var r := Trim(s);
    assert r == s[i..j] == u[..|u| - n];
    assert s[j..] == u[|u| - n..];
    if r != [] {
      assert r[0] == u[0];
      assert r[|r| - 1] == u[|u| - n - 1];
    }
  }

  /** A whitespace prefix followed by a non-whitespace character is exactly the leading run. */
  lemma {:induction false} LeadingWhitespaceAt(s: string, a: nat)
    requires a <= |s| && AllWhitespace(s[..a])
    requires a < |s| ==> !IsWhitespace(s[a])
    ensures LeadingWhitespace(s) == a
    decreases a
  {
    if a > 0 {
      assert s[0] == s[..a][0];
      var t := s[1..];
      var w := t[..a - 1];
      assert AllWhitespace(w) by {
        forall k | 0 <= k < |w| ensures IsWhitespace(w[k]) {
          assert w[k] == s[..a][k + 1];
        }
      }
      LeadingWhitespaceAt(t, a - 1);
    }
  }

  /** A whitespace suffix preceded by a non-whitespace character is exactly the trailing run. */
  lemma {:induction false} TrailingWhitespaceAt(s: string, b: nat)
    requires b <= |s| && AllWhitespace(s[b..])
    requires 0 < b ==> !IsWhitespace(s[b - 1])
    ensures TrailingWhitespace(s) == |s| - b
    decreases |s| - b
  {
    if b < |s| {
      var p := s[..|s| - 1];
      assert s[|s| - 1] == s[b..][|s| - 1 - b];
      assert p[b..] == s[b..|s| - 1];
      assert AllWhitespace(p[b..]) by {
        forall k | 0 <= k < |p| - b ensures IsWhitespace(p[b..][k]) {
          assert p[b..][k] == s[b..][k];
        }
      }
      if 0 < b { assert p[b - 1] == s[b - 1]; }
      TrailingWhitespaceAt(p, b);
    }
  }

  /** Whitespace on both sides of an empty middle makes the whole string whitespace. */
  lemma AllWhitespaceAround(s: string, a: nat)
    requires a <= |s| && AllWhitespace(s[..a]) && AllWhitespace(s[a..])
    ensures AllWhitespace(s)
  {
    forall k | 0 <= k < |s| ensures IsWhitespace(s[k]) {
      if k < a { assert s[k] == s[..a][k]; } else { assert s[k] == s[a..][k - a]; }
    }
  }

  /** Only a string of whitespace can trim to the empty string. */
  lemma EmptyTrimOfIsTrim(s: string, a: nat, b: nat)
    requires a <= b <= |s| && s[a..b] == [] && AllWhitespace(s[..a]) && AllWhitespace(s[b..])
    ensures Trim(s) == []
  {
    AllWhitespaceAround(s, a);
    TrimEmptyIffAllWhitespace(s);
  }

  /** A non-empty trimmed slice starts where the leading run ends and stops where the trailing one starts. */
  lemma NonEmptyTrimOfIsTrim(s: string, a: nat, b: nat)
    requires a < b <= |s| && AllWhitespace(s[..a]) && AllWhitespace(s[b..])
    requires !IsWhitespace(s[a]) && !IsWhitespace(s[b - 1])
    ensures Trim(s) == s[a..b]
  {
    LeadingWhitespaceAt(s, a);
    var u := s[a..];
    assert u[b - a..] == s[b..];
    assert u[b - a - 1] == s[b - 1];
    TrailingWhitespaceAt(u, b - a);
    assert u[..b - a] == s[a..b];
  }

  /** The relation has at most one solution for each `s`. */
  lemma IsTrimOfUnique(s: string, r: string)
    requires IsTrimOf(s, r)
    ensures r == Trim(s)
  {
    var a, b :| 0 <= a <= b <= |s| && r == s[a..b]
      && AllWhitespace(s[..a]) && AllWhitespace(s[b..]) && NoEdgeWhitespace(r);
    if r == [] {
      assert Trim(s) == [] by { EmptyTrimOfIsTrim(s, a, b); }
    } else {
      assert !IsWhitespace(s[a]) && !IsWhitespace(s[b - 1]) by {
        assert s[a] == r[0] && s[b - 1] == r[|r| - 1];
      }
      NonEmptyTrimOfIsTrim(s, a, b);
    }
  }

  /** Trim computes exactly the relation IsTrimOf, so that relation has one solution. */
  lemma TrimCharacterized(s: string, r: string)
    ensures IsTrimOf(s, r) <==> r == Trim(s)
  {
    if r == Trim(s) { TrimIsTrimOf(s); }
    if IsTrimOf(s, r) { IsTrimOfUnique(s, r); }
  }

  /** Trimming a string of whitespace only gives the empty string, and only those do. */
  lemma TrimEmptyIffAllWhitespace(s: string)
    ensures Trim(s) == "" <==> AllWhitespace(s)
  {
    var i := LeadingWhitespace(s);
    var u := s[i..];
    if AllWhitespace(s) {
      assert s[..|s|] == s;
      LeadingWhitespaceAt(s, |s|);
    }
    if Trim(s) == "" {
      LeadingWhitespaceSpec(s);
      TrailingWhitespaceSpec(u);
      assert u[|u| - TrailingWhitespace(u)..] == u;
      AllWhitespaceAround(s, i);
    }
  }

  /** Trim is idempotent. */
  lemma TrimIdempotent(s: string)
    ensures Trim(Trim(s)) == Trim(s)
  {
    var t := Trim(s);
    TrimIsTrimOf(s);
    assert IsTrimOf(t, t) by {
      assert t == t[0..|t|];
      assert t[..0] == [];
      assert t[|t|..] == [];
    }
    TrimCharacterized(t, t);
  }
}
