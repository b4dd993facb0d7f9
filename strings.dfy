/**
 * Text primitives the chat input relies on: the regex character classes it
 * uses, JavaScript's `trim`, the two `split` idioms of the mention query,
 * `indexOf`/`replace` with a string pattern, and the end-anchored token a
 * suggestion replaces. Strings are sequences of characters.
 */
module Strings {

  datatype Option<T> = None | Some(value: T)

  /** JavaScript's `\w`: ASCII letters, digits and the underscore. */
  predicate IsWordChar(c: char) {
    ('a' <= c <= 'z') || ('A' <= c <= 'Z') || ('0' <= c <= '9') || c == '_'
  }

  /** The class `[a-z_]` that emoji shortcode names are made of. */
  predicate IsShortcodeChar(c: char) {
    ('a' <= c <= 'z') || c == '_'
  }

  /** ECMAScript WhiteSpace and LineTerminator code points: what `trim` removes. */
  predicate IsSpace(c: char) {
    var n := c as int;
    n == 0x09 || n == 0x0A || n == 0x0B || n == 0x0C || n == 0x0D || n == 0x20
    || n == 0xA0 || n == 0x1680 || (0x2000 <= n <= 0x200A) || n == 0x2028 || n == 0x2029
    || n == 0x202F || n == 0x205F || n == 0x3000 || n == 0xFEFF
  }

  /** The character classes the input's regular expressions repeat, and whitespace. */
  datatype CharClass = Word | ShortcodeName | Space

  predicate InClass(c: char, k: CharClass) {
    match k
    case Word => IsWordChar(c)
    case ShortcodeName => IsShortcodeChar(c)
    case Space => IsSpace(c)
  }

  predicate AllIn(s: string, k: CharClass) {
    forall i :: 0 <= i < |s| ==> InClass(s[i], k)
  }

  /** Length of the longest prefix of `s` in class `k`: what a greedy `k*` consumes. */
  function RunLength(s: string, k: CharClass): (n: nat)
    ensures n <= |s|
    ensures AllIn(s[..n], k)
    ensures n < |s| ==> !InClass(s[n], k)
  {
    if s == [] || !InClass(s[0], k) then 0
    else
      var n := 1 + RunLength(s[1..], k);
      assert s[..n] == [s[0]] + s[1..][..n - 1];
      n
  }

  /** A run of class characters followed by a character outside the class is consumed exactly. */
  lemma {:induction false} RunLengthOfToken(w: string, c: char, rest: string, k: CharClass)
    requires AllIn(w, k) && !InClass(c, k)
    ensures RunLength(w + [c] + rest, k) == |w|
  {
    if w != [] {
      assert (w + [c] + rest)[1..] == w[1..] + [c] + rest;
      RunLengthOfToken(w[1..], c, rest, k);
    }
  }

  /** Length of the longest suffix of `s` in class `k`. */
  function TrailRunLength(s: string, k: CharClass): (n: nat)
    ensures n <= |s|
    ensures AllIn(s[|s| - n..], k)
    ensures n < |s| ==> !InClass(s[|s| - n - 1], k)
  {
    if s == [] || !InClass(s[|s| - 1], k) then 0
    else
      var n := 1 + TrailRunLength(s[..|s| - 1], k);
      assert s[|s| - n..] == s[..|s| - 1][|s| - n..] + [s[|s| - 1]];
      n
  }

  /**
   * The match of the end-anchored regex `sigil k*$` (`/@\w*$/`, `/:[a-z_]*$/`):
   * the position of the sigil that only class characters follow. Neither sigil
   * belongs to its class, so there is at most one such position, and it is the
   * leftmost, which is the one the regex engine reports.
   */
  function TrailingToken(s: string, sigil: char, k: CharClass): (r: Option<nat>)
    requires !InClass(sigil, k)
    ensures r.Some? ==> r.value < |s| && s[r.value] == sigil && AllIn(s[r.value + 1..], k)
    ensures r.Some? ==> forall i :: 0 <= i < r.value && s[i] == sigil ==> !AllIn(s[i + 1..], k)
    ensures r.None? ==> forall i :: 0 <= i < |s| && s[i] == sigil ==> !AllIn(s[i + 1..], k)
  {
    var n := TrailRunLength(s, k);
    var p := |s| - n;
    if p > 0 && s[p - 1] == sigil then
      assert forall i :: 0 <= i < p - 1 && s[i] == sigil ==> !AllIn(s[i + 1..], k) by {
        forall i | 0 <= i < p - 1 && s[i] == sigil
          ensures !AllIn(s[i + 1..], k)
        {
          assert s[i + 1..][p - 2 - i] == s[p - 1];
        }
      }
      Some(p - 1)
    else
      assert forall i :: 0 <= i < |s| && s[i] == sigil ==> !AllIn(s[i + 1..], k) by {
        forall i | 0 <= i < |s| && s[i] == sigil
          ensures !AllIn(s[i + 1..], k)
        {
          if i < p - 1 {
            assert s[i + 1..][p - 2 - i] == s[p - 1];
          }
        }
      }
      None
  }

  /** A run of class characters after a character outside the class is the whole trailing run. */
  lemma {:induction false} TrailRunLengthOfToken(rest: string, c: char, w: string, k: CharClass)
    requires AllIn(w, k) && !InClass(c, k)
    ensures TrailRunLength(rest + [c] + w, k) == |w|
  {
    var s := rest + [c] + w;
    if w != [] {
      assert s[..|s| - 1] == rest + [c] + w[..|w| - 1];
      TrailRunLengthOfToken(rest, c, w[..|w| - 1], k);
    }
  }

  /** Text whose last run of class characters is preceded by anything but the sigil has no trailing token. */
  lemma NoTrailingToken(rest: string, c: char, w: string, sigil: char, k: CharClass)
    requires AllIn(w, k) && !InClass(c, k) && c != sigil && !InClass(sigil, k)
    ensures TrailingToken(rest + [c] + w, sigil, k).None?
  {
    var s := rest + [c] + w;
    TrailRunLengthOfToken(rest, c, w, k);
    assert s[|s| - |w| - 1] == c;
  }

  /** `s` without its leading whitespace. */
  function TrimStart(s: string): (r: string)
    ensures |r| <= |s| && r == s[|s| - |r|..] && AllIn(s[..|s| - |r|], Space)
    ensures r == [] || !IsSpace(r[0])
  {
    s[RunLength(s, Space)..]
  }

  /** `s` without its trailing whitespace. */
  function TrimEnd(s: string): (r: string)
    ensures r <= s && AllIn(s[|r|..], Space)
    ensures r == [] || !IsSpace(r[|r| - 1])
  {
    s[..|s| - TrailRunLength(s, Space)]
  }

  /** Trimming the end of a string that starts with a non-space leaves that character. */
  lemma TrimEndKeepsStart(t: string)
    requires t == [] || !IsSpace(t[0])
    ensures TrimEnd(t) == [] ==> t == []
  {
  }

  /**
   * `String.prototype.trim`: the infix of `s` left once the whitespace at both
   * ends is gone; it is empty exactly when `s` is all whitespace.
   */
  function Trim(s: string): (r: string)
    ensures r == [] <==> AllIn(s, Space)
    ensures r != [] ==> !IsSpace(r[0]) && !IsSpace(r[|r| - 1])
    ensures exists i :: 0 <= i <= |s| - |r| && s[i..i + |r|] == r && AllIn(s[..i], Space) && AllIn(s[i + |r|..], Space)
  {
    var i := RunLength(s, Space);
    var t := s[i..];
    var r := TrimEnd(t);
    assert s[i..i + |r|] == r;
    assert s[i + |r|..] == t[|r|..];
    assert t != [] ==> t[0] == s[i];
    TrimEndKeepsStart(t);
    assert r == [] ==> s[..i] == s;
    assert r != [] ==> r[0] == t[0] == s[i];
    r
  }

  /** Trimming twice is trimming once. */
  lemma TrimIdempotent(s: string)
    ensures Trim(Trim(s)) == Trim(s)
  {
    var r := Trim(s);
    if r != [] {
      assert RunLength(r, Space) == 0;
      assert TrailRunLength(r, Space) == 0;
      assert r[0..] == r && r[..|r|] == r;
    }
  }

  /** `s[i]` is the last `c` of `s`. */
  predicate LastAt(s: string, c: char, i: nat) {
    i < |s| && s[i] == c && c !in s[i + 1..]
  }

  /** `s.split(c).pop()`: the piece after the last `c`, or all of `s` when it has none. */
  function AfterLast(s: string, c: char): (r: string)
    ensures |r| <= |s| && r == s[|s| - |r|..]
    ensures c !in r
    ensures c in s ==> |r| < |s| && LastAt(s, c, |s| - |r| - 1)
    ensures c !in s ==> r == s
  {
    if s == [] || s[|s| - 1] == c then []
    else
      var s' := s[..|s| - 1];
      var r := AfterLast(s', c) + [s[|s| - 1]];
      assert s == s' + [s[|s| - 1]];
      assert c in s ==> c in s';
      assert c in s' ==> s[|s| - |r|..] == s'[|s'| - |r| + 1..] + [s[|s| - 1]];
      r
  }

  /** The piece after the last `c` is exactly what follows that `c`. */
  lemma {:induction false} AfterLastOf(s: string, c: char, t: string)
    requires c !in t
    ensures AfterLast(s + [c] + t, c) == t
    decreases |t|
  {
    var u := s + [c] + t;
    if t != [] {
      var t' := t[..|t| - 1];
      assert u[..|u| - 1] == s + [c] + t';
      AfterLastOf(s, c, t');
      assert t == t' + [t[|t| - 1]];
    }
  }

  /** The piece before the first `c` is exactly what precedes that `c`. */
  lemma {:induction false} BeforeFirstOf(w: string, c: char, t: string)
    requires c !in w
    ensures BeforeFirst(w + [c] + t, c) == w
  {
    var u := w + [c] + t;
    if w != [] {
      assert u[1..] == w[1..] + [c] + t;
      BeforeFirstOf(w[1..], c, t);
      assert w == [w[0]] + w[1..];
    }
  }

  /** `s.split(c)[0]`: the piece before the first `c`, or all of `s` when it has none. */
  function BeforeFirst(s: string, c: char): (r: string)
    ensures r <= s
    ensures c !in r
    ensures |r| < |s| ==> s[|r|] == c
  {
    if s == [] || s[0] == c then []
    else [s[0]] + BeforeFirst(s[1..], c)
  }

  /** Splitting off the first character of the left operand of a concatenation. */
  lemma ConcatCons(p: string, q: string)
    requires p != []
    ensures p + q == [p[0]] + (p[1..] + q)
  {
    assert p == [p[0]] + p[1..];
  }

  /** `pat` occurs in `s` starting at position `i`. */
  predicate OccursAt(s: string, pat: string, i: nat) {
    i + |pat| <= |s| && s[i..i + |pat|] == pat
  }

  /** `s.indexOf(pat)`: the leftmost position where `pat` occurs. */
  function IndexOf(s: string, pat: string): (r: Option<nat>)
    ensures r.Some? ==> OccursAt(s, pat, r.value)
    ensures r.Some? ==> forall i: nat :: i < r.value ==> !OccursAt(s, pat, i)
    ensures r.None? ==> forall i: nat :: !OccursAt(s, pat, i)
  {
    if |s| < |pat| then None
    else if pat <= s then
      assert OccursAt(s, pat, 0);
      Some(0)
    else
      assert !OccursAt(s, pat, 0);
      assert forall i: nat :: 1 <= i ==> OccursAt(s, pat, i) == OccursAt(s[1..], pat, i - 1) by {
        forall i: nat | 1 <= i
          ensures OccursAt(s, pat, i) == OccursAt(s[1..], pat, i - 1)
        {
          if i + |pat| <= |s| {
            SliceOfTail(s, i, i + |pat|);
          }
        }
      }
      match IndexOf(s[1..], pat)
      case None => None
      case Some(j) => Some(j + 1)
  }

  /** A slice of the tail of `s` is the slice of `s` one position further on. */
  lemma SliceOfTail(s: string, i: nat, j: nat)
    requires 1 <= i <= j <= |s|
    ensures s[1..][i - 1..j - 1] == s[i..j]
  {
  }

  /** `s.replace(pat, rep)` with a string pattern: only the first occurrence is replaced. */
  function ReplaceFirst(s: string, pat: string, rep: string): (r: string)
    ensures IndexOf(s, pat).None? ==> r == s
    ensures pat <= s ==> r == rep + s[|pat|..]
  {
    assert pat <= s ==> OccursAt(s, pat, 0);
    match IndexOf(s, pat)
    case None => s
    case Some(i) => s[..i] + rep + s[i + |pat|..]
  }
}
