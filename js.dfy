/** The few JavaScript primitives the game relies on, written out because
    Dafny's own operators differ from them. */
module Js {

  /** JavaScript `a % 26`, the only modulus the game uses: the remainder
      keeps the sign of the dividend (Dafny's `%` is Euclidean and never
      negative). */
  function Rem26(a: int): (r: int)
    ensures a >= 0 ==> 0 <= r < 26
    ensures a < 0 ==> -26 < r <= 0
    ensures (a - r) % 26 == 0
  {
    if a >= 0 then a % 26 else -((-a) % 26)
  }

  /** JavaScript `Math.round(x)`: the nearest integer, halves rounded
      towards positive infinity. */
  function Round(x: real): (r: int)
    ensures x - 0.5 < r as real <= x + 0.5
  {
    (x + 0.5).Floor
  }

  lemma RoundInt(k: int)
    ensures Round(k as real) == k
  {
  }

  lemma RoundShift(x: real, k: int)
    ensures Round(x + k as real) == Round(x) + k
  {
  }

  /** The white space `String.prototype.trim` removes, restricted to ASCII. */
  predicate IsWhite(c: char) {
    c == ' ' || c == '\t' || c == '\n' || c == '\r' || c == '\U{B}' || c == '\U{C}'
  }

  predicate IsLower(c: char) {
    'a' <= c <= 'z'
  }

  /** ASCII `toUpperCase` of one character. */
  function UpperChar(c: char): (u: char)
    ensures !IsLower(u)
    ensures IsLower(c) ==> 'A' <= u <= 'Z' && u as int - 'A' as int == c as int - 'a' as int
    ensures !IsLower(c) ==> u == c
    ensures IsWhite(u) <==> IsWhite(c)
  {
    if IsLower(c) then (c as int - 32) as char else c
  }

  /** ASCII `String.prototype.toUpperCase`. */
  function ToUpper(s: string): (r: string)
    ensures |r| == |s|
    ensures forall i :: 0 <= i < |r| ==> !IsLower(r[i])
    ensures forall i :: 0 <= i < |s| ==> r[i] == UpperChar(s[i])
  {
    if s == [] then [] else [UpperChar(s[0])] + ToUpper(s[1..])
  }

  lemma {:induction false} ToUpperAppend(a: string, b: string)
    ensures ToUpper(a + b) == ToUpper(a) + ToUpper(b)
  {
    if a != [] {
      assert (a + b)[1..] == a[1..] + b;
      ToUpperAppend(a[1..], b);
    }
  }

  lemma {:induction false} ToUpperIdempotent(s: string)
    ensures ToUpper(ToUpper(s)) == ToUpper(s)
  {
    forall i | 0 <= i < |s| ensures ToUpper(ToUpper(s))[i] == ToUpper(s)[i] {
      assert !IsLower(ToUpper(s)[i]);
    }
  }

  lemma {:induction false} ToUpperSlice(s: string, a: nat, b: nat)
    requires a <= b <= |s|
    ensures ToUpper(s[a..b]) == ToUpper(s)[a..b]
  {
    forall i | 0 <= i < b - a ensures ToUpper(s[a..b])[i] == ToUpper(s)[a..b][i] {
      assert s[a..b][i] == s[a + i];
    }
  }

  predicate AllWhite(s: string) {
    forall i :: 0 <= i < |s| ==> IsWhite(s[i])
  }

  lemma AllWhiteAppend(a: string, b: string)
    requires AllWhite(a) && AllWhite(b)
    ensures AllWhite(a + b)
  {
    forall i | 0 <= i < |a + b| ensures IsWhite((a + b)[i]) {
      if i < |a| { assert (a + b)[i] == a[i]; } else { assert (a + b)[i] == b[i - |a|]; }
    }
  }

  /** Drops leading white space: the result is the longest suffix of `s`
      that does not start with white space. */
  function TrimStart(s: string): (r: string)
    ensures |r| <= |s| && r == s[|s| - |r|..]
    ensures AllWhite(s[..|s| - |r|])
    ensures r != [] ==> !IsWhite(r[0])
  {
    if s != [] && IsWhite(s[0]) then
      var r := TrimStart(s[1..]);
      assert s[..|s| - |r|] == [s[0]] + s[1..][..|s| - 1 - |r|];
      AllWhiteAppend([s[0]], s[1..][..|s| - 1 - |r|]);
      r
    else s
  }

  /** Drops trailing white space: the result is the longest prefix of `s`
      that does not end with white space. */
  function TrimEnd(s: string): (r: string)
    ensures |r| <= |s| && r == s[..|r|]
    ensures AllWhite(s[|r|..])
    ensures r != [] ==> !IsWhite(r[|r| - 1])
  {
    if s != [] && IsWhite(s[|s| - 1]) then
      var r := TrimEnd(s[..|s| - 1]);
      assert s[|r|..] == s[..|s| - 1][|r|..] + [s[|s| - 1]];
      AllWhiteAppend(s[..|s| - 1][|r|..], [s[|s| - 1]]);
      r
    else s
  }

  /** ASCII `String.prototype.trim`. */
  function Trim(s: string): (r: string)
    ensures r == [] || (!IsWhite(r[0]) && !IsWhite(r[|r| - 1]))
    ensures exists a, b :: 0 <= a <= b <= |s| && r == s[a..b] && AllWhite(s[..a]) && AllWhite(s[b..])
  {
    var t := TrimStart(s);
    var u := TrimEnd(t);
    var a := |s| - |t|;
    var b := a + |u|;
    assert u == s[a..b];
    assert s[b..] == t[|u|..];
    assert AllWhite(s[..a]) && AllWhite(s[b..]);
    u
  }

  lemma {:induction false} TrimSlice(s: string) returns (a: nat, b: nat)
    ensures a <= b <= |s| && Trim(s) == s[a..b]
  {
    var t := TrimStart(s);
    var u := TrimEnd(t);
    a, b := |s| - |t|, |s| - |t| + |u|;
    assert u == t[..|u|];
  }

  lemma TrimUnpadded(s: string)
    requires s == [] || (!IsWhite(s[0]) && !IsWhite(s[|s| - 1]))
    ensures Trim(s) == s
  {
  }

  lemma {:induction false} TrimStartPrefix(p: string, s: string)
    requires AllWhite(p)
    ensures TrimStart(p + s) == TrimStart(s)
  {
    if p != [] {
      assert (p + s)[0] == p[0] && IsWhite(p[0]);
      assert (p + s)[1..] == p[1..] + s;
      TrimStartPrefix(p[1..], s);
    } else {
      assert p + s == s;
    }
  }

  lemma {:induction false} TrimEndSuffix(s: string, q: string)
    requires AllWhite(q)
    ensures TrimEnd(s + q) == TrimEnd(s)
  {
    if q != [] {
      var n := |q| - 1;
      assert (s + q)[|s + q| - 1] == q[n] && IsWhite(q[n]);
      assert (s + q)[..|s + q| - 1] == s + q[..n];
      TrimEndSuffix(s, q[..n]);
    } else {
      assert s + q == s;
    }
  }

  lemma {:induction false} TrimStartAppend(s: string, q: string)
    requires AllWhite(q)
    ensures TrimStart(s) != [] ==> TrimStart(s + q) == TrimStart(s) + q
    ensures TrimStart(s) == [] ==> TrimStart(s + q) == []
  {
    if s == [] {
      assert s + q == q;
    } else if IsWhite(s[0]) {
      assert (s + q)[0] == s[0];
      assert (s + q)[1..] == s[1..] + q;
      TrimStartAppend(s[1..], q);
    } else {
      assert (s + q)[0] == s[0];
    }
  }

  lemma {:induction false} TrimPadding(p: string, s: string, q: string)
    requires AllWhite(p) && AllWhite(q)
    ensures Trim(p + s + q) == Trim(s)
  {
    assert p + s + q == p + (s + q);
    TrimStartPrefix(p, s + q);
    TrimStartAppend(s, q);
    TrimEndSuffix(TrimStart(s), q);
  }

  /** Trimming a string with no lower-case letter leaves none. */
  lemma TrimNoLower(s: string)
    requires forall i :: 0 <= i < |s| ==> !IsLower(s[i])
    ensures forall i :: 0 <= i < |Trim(s)| ==> !IsLower(Trim(s)[i])
  {
    var a, b := TrimSlice(s);
    forall i | 0 <= i < |Trim(s)| ensures !IsLower(Trim(s)[i]) {
      assert Trim(s)[i] == s[a + i];
    }
  }
}
