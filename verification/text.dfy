/**
 * The few string operations the add-on relies on, with the semantics of the
 * host language's `str` methods: removal of every occurrence of a pattern
 * (`replace` with an empty replacement), `split` on one character, `join`,
 * substring test, `strip`, and decimal rendering of a count.
 */
module Text {

  predicate StartsWith(s: string, p: string) {
    |p| <= |s| && s[..|p|] == p
  }

  /** `sub` occurs in `s` at position `i`. */
  predicate OccursAt(s: string, sub: string, i: nat) {
    i + |sub| <= |s| && s[i..i + |sub|] == sub
  }

  /** `sub` occurs in `s`: the host's `sub in s`. */
  predicate Contains(s: string, sub: string) {
    exists i: nat :: i <= |s| && OccursAt(s, sub, i)
  }

  /** A character of `sub` that `s` lacks rules out an occurrence. */
  lemma NotContainsByChar(s: string, sub: string, c: char)
    requires c in sub && c !in s
    ensures !Contains(s, sub)
  {
    forall i: nat | OccursAt(s, sub, i) ensures false {
    }
  }

  /** Without an occurrence at its start, a string holds `sub` exactly when
      its tail does. */
  lemma ContainsTail(s: string, sub: string)
    requires |s| > 0 && !OccursAt(s, sub, 0)
    ensures Contains(s, sub) <==> Contains(s[1..], sub)
  {
    if Contains(s, sub) {
      var i: nat :| i <= |s| && OccursAt(s, sub, i);
      assert i > 0;
      assert s[1..][i - 1..i - 1 + |sub|] == s[i..i + |sub|];
      assert OccursAt(s[1..], sub, i - 1);
    }
    if Contains(s[1..], sub) {
      var i: nat :| i <= |s[1..]| && OccursAt(s[1..], sub, i);
      assert s[i + 1..i + 1 + |sub|] == s[1..][i..i + |sub|];
      assert OccursAt(s, sub, i + 1);
    }
  }

  /** `s.replace(pat, "")`: occurrences removed left to right, without
      overlap.  The string comes back unchanged exactly when it does not
      contain the pattern; otherwise at least one occurrence goes. */
  function RemoveAll(s: string, pat: string): (r: string)
    requires |pat| > 0
    ensures |r| <= |s|
    ensures !Contains(s, pat) ==> r == s
    ensures Contains(s, pat) ==> |r| <= |s| - |pat|
    decreases |s|
  {
    if |s| < |pat| then
      s
    else if s[..|pat|] == pat then
      assert OccursAt(s, pat, 0);
      RemoveAll(s[|pat|..], pat)
    else
      assert !OccursAt(s, pat, 0);
      ContainsTail(s, pat);
      assert [s[0]] + s[1..] == s;
      [s[0]] + RemoveAll(s[1..], pat)
  }

  /** Removing the prefix the add-on puts on a helper node's name gives back
      the name of the node it serves, when that name lacks the prefix. */
  lemma RemoveAllPrefix(pat: string, name: string)
    requires |pat| > 0 && !Contains(name, pat)
    ensures RemoveAll(pat + name, pat) == name
  {
    assert (pat + name)[..|pat|] == pat;
    assert (pat + name)[|pat|..] == name;
  }

  /** The host's `sep.join(parts)`. */
  function Join(parts: seq<string>, sep: string): string {
    if parts == [] then ""
    else if |parts| == 1 then parts[0]
    else parts[0] + sep + Join(parts[1..], sep)
  }

  /** The host's `s.split(c)` for a one-character separator: the pieces
      between separators, always at least one. */
  function Split(s: string, c: char): (r: seq<string>)
    ensures |r| >= 1
    ensures forall k :: 0 <= k < |r| ==> c !in r[k]
    ensures Join(r, [c]) == s
    decreases |s|
  {
    if s == [] then [""]
    else
      var rest := Split(s[1..], c);
      assert [s[0]] + s[1..] == s;
      if s[0] == c then
        assert ([""] + rest)[1..] == rest;
        [""] + rest
      else
        var r := [[s[0]] + rest[0]] + rest[1..];
        assert |rest| > 1 ==> r[1..] == rest[1..] && Join(rest, [c]) == rest[0] + [c] + Join(rest[1..], [c]);
        r
  }

  /** A string with the separator splits into at least two pieces, the
      first being the text before the first separator. */
  lemma {:induction false} SplitAtFirst(a: string, c: char, b: string)
    requires c !in a
    ensures Split(a + [c] + b, c) == [a] + Split(b, c)
    decreases |a|
  {
    if a == [] {
      assert a + [c] + b == [c] + b;
      assert ([c] + b)[1..] == b;
    } else {
      SplitAtFirst(a[1..], c, b);
      assert (a + [c] + b)[1..] == a[1..] + [c] + b;
      assert [a[0]] + a[1..] == a;
    }
  }

  /** A string without the separator is one piece. */
  lemma {:induction false} SplitNone(a: string, c: char)
    requires c !in a
    ensures Split(a, c) == [a]
    decreases |a|
  {
    if a != [] {
      SplitNone(a[1..], c);
      assert [a[0]] + a[1..] == a;
    }
  }

  /** Splitting joined lines gives the lines back when none holds the
      separator. */
  lemma {:induction false} SplitJoin(lines: seq<string>, c: char)
    requires forall k :: 0 <= k < |lines| ==> c !in lines[k]
    ensures |lines| > 0 ==> Split(Join(lines, [c]), c) == lines
  {
    if |lines| == 1 {
      SplitNone(lines[0], c);
    } else if |lines| > 1 {
      SplitJoin(lines[1..], c);
      SplitAtFirst(lines[0], c, Join(lines[1..], [c]));
      assert lines == [lines[0]] + lines[1..];
    }
  }

  /** The characters the host's `strip` removes (ASCII whitespace). */
  predicate IsSpace(ch: char) {
    ch == ' ' || ch == '\t' || ch == '\n' || ch == '\r' || ch == '\U{B}' || ch == '\U{C}'
  }

  /** `s` without its leading blanks. */
  function StripLeft(s: string): (r: string)
    ensures |r| <= |s| && r == s[|s| - |r|..]
    ensures forall k :: 0 <= k < |s| - |r| ==> IsSpace(s[k])
    ensures r != [] ==> !IsSpace(r[0])
  {
    if s != [] && IsSpace(s[0]) then StripLeft(s[1..]) else s
  }

  /** `s` without its trailing blanks. */
  function StripRight(s: string): (r: string)
    ensures |r| <= |s| && r == s[..|r|]
    ensures forall k :: |r| <= k < |s| ==> IsSpace(s[k])
    ensures r != [] ==> !IsSpace(r[|r| - 1])
  {
    if s != [] && IsSpace(s[|s| - 1]) then StripRight(s[..|s| - 1]) else s
  }

  /** `r` is the part of `s` at position `i` with only blanks before and
      after it. */
  predicate Trimmed(s: string, r: string, i: nat) {
    && i + |r| <= |s| && r == s[i..i + |r|]
    && (forall k :: 0 <= k < i ==> IsSpace(s[k]))
    && (forall k :: i + |r| <= k < |s| ==> IsSpace(s[k]))
  }

  /** The host's `s.strip()`: the part of `s` between its leading and its
      trailing blanks, which neither starts nor ends with a blank. */
  function Strip(s: string): (r: string)
    ensures exists i: nat :: Trimmed(s, r, i)
    ensures r != [] ==> !IsSpace(r[0]) && !IsSpace(r[|r| - 1])
  {
    var l := StripLeft(s);
    var r := StripRight(l);
    TrimmedParts(s, l, r);
    r
  }

  /** A blank-free end of `s` cut back to a blank-free start is a trimmed
      part of `s`. */
  lemma TrimmedParts(s: string, l: string, r: string)
    requires |l| <= |s| && l == s[|s| - |l|..]
    requires forall k :: 0 <= k < |s| - |l| ==> IsSpace(s[k])
    requires |r| <= |l| && r == l[..|r|]
    requires forall k :: |r| <= k < |l| ==> IsSpace(l[k])
    ensures Trimmed(s, r, |s| - |l|)
  {
    var i := |s| - |l|;
    forall k | i + |r| <= k < |s| ensures IsSpace(s[k]) {
      assert s[k] == l[k - i];
    }
    assert r == s[i..i + |r|];
  }

  /** Leading blanks go and a word without surrounding blanks is kept. */
  lemma {:induction false} StripBlanks(n: nat, w: string)
    requires w != [] && !IsSpace(w[0]) && !IsSpace(w[|w| - 1])
    ensures Strip(seq(n, _ => ' ') + w) == w
  {
    StripLeftBlanks(n, w);
  }

  lemma {:induction false} StripLeftBlanks(n: nat, w: string)
    requires w != [] && !IsSpace(w[0])
    ensures StripLeft(seq(n, _ => ' ') + w) == w
  {
    if n > 0 {
      var s := seq(n, _ => ' ') + w;
      assert s[1..] == seq(n - 1, _ => ' ') + w;
      StripLeftBlanks(n - 1, w);
    } else {
      assert seq(n, _ => ' ') + w == w;
    }
  }

  function DigitChar(d: nat): (c: char)
    requires d < 10
    ensures c as int == '0' as int + d
  {
    "0123456789"[d]
  }

  /** The host's `str(n)` for a count: digits only, with no leading zero
      except in "0" itself. */
  function NatToString(n: nat): (r: string)
    ensures |r| >= 1
    ensures forall k :: 0 <= k < |r| ==> '0' <= r[k] <= '9'
    ensures n == 0 <==> r == "0"
    ensures n > 0 ==> r[0] != '0'
  {
    if n < 10 then [DigitChar(n)]
    else NatToString(n / 10) + [DigitChar(n % 10)]
  }

  /** The decimal value of a string of digits. */
  function DigitsValue(s: string): nat
    requires forall k :: 0 <= k < |s| ==> '0' <= s[k] <= '9'
  {
    if s == [] then 0
    else 10 * DigitsValue(s[..|s| - 1]) + ((s[|s| - 1] as int) - ('0' as int))
  }

  /** The rendering is the decimal notation of the count. */
  lemma {:induction false} NatToStringValue(n: nat)
    ensures DigitsValue(NatToString(n)) == n
  {
    if n >= 10 {
      NatToStringValue(n / 10);
      var s := NatToString(n);
      assert s[..|s| - 1] == NatToString(n / 10);
    }
  }

  /** Distinct counts render differently. */
  lemma NatToStringInjective(a: nat, b: nat)
    requires NatToString(a) == NatToString(b)
    ensures a == b
  {
    NatToStringValue(a);
    NatToStringValue(b);
  }

  /** A string holding `sub` holds every character of `sub`. */
  lemma ContainsChar(s: string, sub: string, c: char)
    requires Contains(s, sub) && c in sub
    ensures c in s
  {
    var i: nat :| i <= |s| && OccursAt(s, sub, i);
    var j :| 0 <= j < |sub| && sub[j] == c;
    assert s[i..i + |sub|][j] == c;
  }

  /** A string holding the separator splits into at least two pieces. */
  lemma {:induction false} SplitSeveral(s: string, c: char)
    requires c in s
    ensures |Split(s, c)| >= 2
    decreases |s|
  {
    if s[0] != c {
      assert c in s[1..] by {
        var j :| 0 <= j < |s| && s[j] == c;
        assert s[1..][j - 1] == c;
      }
      SplitSeveral(s[1..], c);
    }
  }

  /** Joining two non-empty lists of pieces puts one separator between
      their joins. */
  lemma {:induction false} JoinAppend(a: seq<string>, b: seq<string>, sep: string)
    requires a != [] && b != []
    ensures Join(a + b, sep) == Join(a, sep) + sep + Join(b, sep)
    decreases |a|
  {
    if |a| == 1 {
      assert (a + b)[1..] == b;
    } else {
      JoinAppend(a[1..], b, sep);
      assert (a + b)[1..] == a[1..] + b;
    }
  }

  /** The string of `n` copies of `c`: the host's `c * n`. */
  function Repeat(c: char, n: nat): (r: string)
    ensures |r| == n && forall k :: 0 <= k < n ==> r[k] == c
  {
    seq(n, _ => c)
  }
}
