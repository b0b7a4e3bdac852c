/**
 The string primitives the submission script relies on: `str.lower()`,
 `str.strip()`, `in` on characters and substrings, and locating the first
 and last occurrence of a separator. Case folding and whitespace are the
 ASCII parts of Python's definitions.
 */
module Text {
  import opened Wrappers

  /** Characters that `str.isspace()` accepts within ASCII. */
  predicate IsSpace(c: char) {
    c == ' ' || c == '\t' || c == '\n' || c == '\r' || c == '\U{0B}' || c == '\U{0C}'
    || ('\U{1C}' <= c <= '\U{1F}')
  }

  predicate AllSpace(s: string) {
    forall k :: 0 <= k < |s| ==> IsSpace(s[k])
  }

  /** A string with no whitespace at either end. */
  predicate Trimmed(s: string) {
    s == [] || (!IsSpace(s[0]) && !IsSpace(s[|s| - 1]))
  }

  function LowerChar(c: char): (d: char)
    ensures IsSpace(d) <==> IsSpace(c)
    ensures 'A' <= c <= 'Z' ==> d as int == c as int + 32
    ensures !('A' <= c <= 'Z') ==> d == c
  {
    if 'A' <= c <= 'Z' then (c as int + 32) as char else c
  }

  /** `s.lower()` */
  function Lower(s: string): (r: string)
    ensures |r| == |s|
    ensures forall k :: 0 <= k < |s| ==> r[k] == LowerChar(s[k])
  {
    seq(|s|, k requires 0 <= k < |s| => LowerChar(s[k]))
  }

  lemma LowerConcat(a: string, b: string)
    ensures Lower(a + b) == Lower(a) + Lower(b)
  {
  }

  /** Lower-casing twice is lower-casing once: a folded letter is outside
      'A'..'Z'. */
  lemma LowerIdempotent(s: string)
    ensures Lower(Lower(s)) == Lower(s)
  {
    var once := Lower(s);
    forall k | 0 <= k < |s|
      ensures Lower(once)[k] == once[k]
    {
      assert !('A' <= once[k] <= 'Z');
    }
  }

  /** Number of whitespace characters that open `s`. */
  function LeadingSpace(s: string): (n: nat)
    ensures n <= |s|
    ensures AllSpace(s[..n])
    ensures n < |s| ==> !IsSpace(s[n])
  {
    if |s| == 0 || !IsSpace(s[0]) then 0 else 1 + LeadingSpace(s[1..])
  }

  /** Number of whitespace characters that close `s`. */
  function TrailingSpace(s: string): (n: nat)
    ensures n <= |s|
    ensures AllSpace(s[|s| - n..])
    ensures n < |s| ==> !IsSpace(s[|s| - n - 1])
  {
    if |s| == 0 || !IsSpace(s[|s| - 1]) then 0
    else
      var m := TrailingSpace(s[..|s| - 1]);
      TrailingSpaceGrows(s, m);
      1 + m
  }

  /** A blank at the end extends the blank run that closes the rest. */
  lemma TrailingSpaceGrows(s: string, m: nat)
    requires 0 < |s| && m < |s| && IsSpace(s[|s| - 1])
    requires AllSpace(s[..|s| - 1][|s| - 1 - m..])
    requires m < |s| - 1 ==> !IsSpace(s[..|s| - 1][|s| - 1 - m - 1])
    ensures AllSpace(s[|s| - m - 1..])
    ensures m + 1 < |s| ==> !IsSpace(s[|s| - m - 2])
  {
    var tail, shorter := s[|s| - m - 1..], s[..|s| - 1][|s| - 1 - m..];
    assert forall k :: 0 <= k < m ==> tail[k] == shorter[k];
    assert tail[m] == s[|s| - 1];
  }

  /** `s.strip()`: the text between the leading and the trailing whitespace. */
  function Strip(s: string): (r: string)
    ensures Trimmed(r)
    ensures r == [] <==> AllSpace(s)
    ensures |r| <= |s|
  {
    var a := LeadingSpace(s);
    if a == |s| then
      assert s[..a] == s;
      []
    else
      var b := |s| - TrailingSpace(s);
      s[a..b]
  }

  /** Whitespace on both sides of an already trimmed text is exactly what
      `Strip` removes. */
  lemma StripFrame(p: string, t: string, q: string)
    requires AllSpace(p) && AllSpace(q) && Trimmed(t)
    ensures Strip(p + t + q) == t
  {
    var s := p + t + q;
    var a := LeadingSpace(s);
    if t == [] {
      assert AllSpace(s) by {
        forall k | 0 <= k < |s| ensures IsSpace(s[k]) {
          if k < |p| { assert s[k] == p[k]; } else { assert s[k] == q[k - |p|]; }
        }
      }
    } else {
      assert s[|p|] == t[0];
      assert a == |p|;
      var n := TrailingSpace(s);
      var b := |s| - n;
      assert s[|p| + |t| - 1] == t[|t| - 1];
      assert b == |p| + |t|;
      assert s[a..b] == t;
    }
  }

  /** Every string is its stripped text framed by whitespace. */
  lemma StripDecompose(s: string) returns (p: string, q: string)
    ensures AllSpace(p) && AllSpace(q)
    ensures s == p + Strip(s) + q
  {
    var a := LeadingSpace(s);
    if a == |s| {
      assert s[..a] == s;
      p, q := s, [];
    } else {
      var b := |s| - TrailingSpace(s);
      p, q := s[..a], s[b..];
      assert s == s[..a] + s[a..b] + s[b..];
    }
  }

  /** Stripping adds no character. */
  lemma StripKeeps(s: string, c: char)
    requires c !in s
    ensures c !in Strip(s)
  {
    var p, q := StripDecompose(s);
  }

  /** Stripping that removes nothing leaves the text as it is. */
  lemma StripFull(s: string)
    requires |Strip(s)| == |s|
    ensures Strip(s) == s
  {
    var p, q := StripDecompose(s);
    assert p == [] && q == [];
    assert s == [] + Strip(s) + [];
  }

  /** A text that opens with whitespace loses at least that character, and
      when it loses only that one, what is left is the rest of the text. */
  lemma StripLeadingBlank(s: string)
    requires |s| > 0 && IsSpace(s[0])
    ensures |Strip(s)| < |s|
    ensures |Strip(s)| == |s| - 1 ==> Strip(s) == s[1..]
  {
    var p, q := StripDecompose(s);
    var t := Strip(s);
    if t != [] {
      assert s[|p|] == t[0];
      assert p != [];
    }
    if |t| == |s| - 1 {
      if t == [] {
        assert |s| == 1;
        assert s[1..] == [];
      } else {
        assert |p| == 1 && q == [];
        assert s == [s[0]] + t + [];
        assert s[1..] == t;
      }
    }
  }

  lemma StripTrimmed(t: string)
    requires Trimmed(t)
    ensures Strip(t) == t
  {
    StripFrame([], t, []);
    assert [] + t + [] == t;
  }

  /** A trimmed text after one blank strips back to itself. */
  lemma StripAfterBlank(t: string)
    requires Trimmed(t)
    ensures Strip(" " + t) == t
  {
    StripFrame(" ", t, []);
    assert " " + t + [] == " " + t;
  }

  /** Stripping twice is stripping once. */
  lemma StripIdempotent(s: string)
    ensures Strip(Strip(s)) == Strip(s)
  {
    StripTrimmed(Strip(s));
  }

  lemma LowerAllSpace(s: string)
    requires AllSpace(s)
    ensures AllSpace(Lower(s))
  {
  }

  lemma LowerTrimmed(t: string)
    requires Trimmed(t)
    ensures Trimmed(Lower(t))
  {
  }

  /** ASCII case folding never turns a letter into whitespace or back, so it
      commutes with stripping. */
  lemma StripLowerCommute(s: string)
    ensures Strip(Lower(s)) == Lower(Strip(s))
  {
    var p, q := StripDecompose(s);
    var t := Strip(s);
    LowerConcat(p + t, q);
    LowerConcat(p, t);
    LowerAllSpace(p);
    LowerAllSpace(q);
    LowerTrimmed(t);
    StripFrame(Lower(p), Lower(t), Lower(q));
  }

  /** Position of the first `c` in `s` (`s.index(c)`), or `None` when `c not in s`. */
  function IndexOf(s: string, c: char): (r: Option<nat>)
    ensures r.None? <==> c !in s
    ensures r.Some? ==> r.value < |s| && s[r.value] == c && c !in s[..r.value]
  {
    if |s| == 0 then None
    else if s[0] == c then Some(0)
    else match IndexOf(s[1..], c)
      case None => None
      case Some(i) =>
        assert s[..i + 1] == [s[0]] + s[1..][..i];
        Some(i + 1)
  }

  /** The first occurrence is where `c` appears with none before it. */
  lemma IndexOfAt(s: string, c: char, i: nat)
    requires i < |s| && s[i] == c && c !in s[..i]
    ensures IndexOf(s, c) == Some(i)
  {
  }

  /** The first occurrence is no later than any occurrence. */
  lemma IndexOfNoLater(s: string, c: char, k: nat)
    requires k < |s| && s[k] == c
    ensures IndexOf(s, c).Some? && IndexOf(s, c).value <= k
  {
    var i := IndexOf(s, c).value;
    assert forall m :: 0 <= m < i ==> s[..i][m] == s[m];
  }

  /** The last occurrence is no earlier than any occurrence. */
  lemma LastIndexOfNoEarlier(s: string, c: char, k: nat)
    requires k < |s| && s[k] == c
    ensures LastIndexOf(s, c).Some? && k <= LastIndexOf(s, c).value
  {
    var j := LastIndexOf(s, c).value;
    assert forall m :: j < m < |s| ==> s[j + 1..][m - j - 1] == s[m];
  }

  /** The last occurrence is where `c` appears with none after it. */
  lemma LastIndexOfAt(s: string, c: char, i: nat)
    requires i < |s| && s[i] == c && c !in s[i + 1..]
    ensures LastIndexOf(s, c) == Some(i)
  {
  }

  /** Position of the last `c` in `s` (`s.rindex(c)`), or `None` when `c not in s`. */
  function LastIndexOf(s: string, c: char): (r: Option<nat>)
    ensures r.None? <==> c !in s
    ensures r.Some? ==> r.value < |s| && s[r.value] == c && c !in s[r.value + 1..]
  {
    if |s| == 0 then None
    else if s[|s| - 1] == c then Some(|s| - 1)
    else
      var init := s[..|s| - 1];
      assert s == init + [s[|s| - 1]];
      match LastIndexOf(init, c)
      case None => None
      case Some(i) =>
        assert s[i + 1..] == init[i + 1..] + [s[|s| - 1]];
        Some(i)
  }

  /** `sub in s`: `sub` occurs as a contiguous piece of `s`. */
  predicate Contains(s: string, sub: string) {
    exists i :: 0 <= i <= |s| && sub <= s[i..]
  }
}
