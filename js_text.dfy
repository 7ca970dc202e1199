/**
 * The few pieces of ECMAScript string behaviour the calendar code and the
 * configuration check rely on: `String.prototype.trim`, the regular-expression
 * classes `\s`, `\d` and `\w`, `toLowerCase` on the characters that matter,
 * and `Number` applied to a run of decimal digits.
 */
module JsText {

  /**
   * WhiteSpace and LineTerminator of ECMAScript: exactly the characters that
   * `trim` removes and that `\s` matches.
   */
  predicate IsJsSpace(c: char) {
    c == '\t' || c == '\n' || c == '\U{B}' || c == '\U{C}' || c == '\r' || c == ' '
    || c == '\U{A0}' || c == '\U{1680}' || ('\U{2000}' <= c <= '\U{200A}')
    || c == '\U{2028}' || c == '\U{2029}' || c == '\U{202F}' || c == '\U{205F}'
    || c == '\U{3000}' || c == '\U{FEFF}'
  }

  predicate AllSpace(s: string) {
    forall k :: 0 <= k < |s| ==> IsJsSpace(s[k])
  }

  /** Neither the first nor the last character of `s` is white space. */
  predicate Trimmed(s: string) {
    s == [] || (!IsJsSpace(s[0]) && !IsJsSpace(s[|s| - 1]))
  }

  /** `\d`: an ASCII decimal digit (no Unicode digits without the `u` flag). */
  predicate IsDigit(c: char) {
    '0' <= c <= '9'
  }

  predicate AllDigits(s: string) {
    forall k :: 0 <= k < |s| ==> IsDigit(s[k])
  }

  /** `\w`: the characters between which and a non-word character `\b` matches. */
  predicate IsWordChar(c: char) {
    'a' <= c <= 'z' || 'A' <= c <= 'Z' || IsDigit(c) || c == '_'
  }

  /** Leading white space removed: what is left is a suffix that does not start with a space. */
  function TrimStart(s: string): (r: string)
    ensures |r| <= |s| && r == s[|s| - |r|..]
    ensures r == [] || !IsJsSpace(r[0])
  {
    if s != [] && IsJsSpace(s[0]) then TrimStart(s[1..]) else s
  }

  /** Trailing white space removed: what is left is a prefix that does not end with a space. */
  function TrimEnd(s: string): (r: string)
    ensures |r| <= |s| && r == s[..|r|]
    ensures r == [] || !IsJsSpace(r[|r| - 1])
  {
    if s != [] && IsJsSpace(s[|s| - 1]) then TrimEnd(s[..|s| - 1]) else s
  }

  /** Everything `TrimStart` drops is white space. */
  lemma {:induction false} TrimStartDropsSpace(s: string)
    ensures AllSpace(s[..|s| - |TrimStart(s)|])
    decreases |s|
  {
    if s != [] && IsJsSpace(s[0]) {
      TrimStartDropsSpace(s[1..]);
      var n := |s| - |TrimStart(s)|;
      forall k | 0 <= k < n ensures IsJsSpace(s[..n][k]) {
        if k > 0 {
          assert s[..n][k] == s[1..][..n - 1][k - 1];
        }
      }
    }
  }

  /** Everything `TrimEnd` drops is white space. */
  lemma {:induction false} TrimEndDropsSpace(s: string)
    ensures AllSpace(s[|TrimEnd(s)|..])
    decreases |s|
  {
    if s != [] && IsJsSpace(s[|s| - 1]) {
      var u := s[..|s| - 1];
      TrimEndDropsSpace(u);
      var m := |TrimEnd(s)|;
      forall k | 0 <= k < |s| - m ensures IsJsSpace(s[m..][k]) {
        if m + k < |s| - 1 {
          assert s[m..][k] == u[m..][k];
        }
      }
    }
  }

  /** How many characters `trim` drops from the front of `s`. */
  function TrimOffset(s: string): nat
    ensures TrimOffset(s) <= |s|
  {
    |s| - |TrimStart(s)|
  }

  /**
   * `String.prototype.trim`: the middle of `s` that starts and ends with a
   * non-space character (`TrimDropsSpace`: all that is cut off is white space).
   */
  function Trim(s: string): (r: string)
    ensures TrimOffset(s) + |r| <= |s| && r == s[TrimOffset(s)..TrimOffset(s) + |r|]
    ensures Trimmed(r)
  {
    var t := TrimStart(s);
    var r := TrimEnd(t);
    SliceChain(s, |s| - |t|, t, r);
    assert r != [] ==> r[0] == t[0];
    r
  }

  /** A prefix `r` of the suffix `t` of `s` that starts at `o` is the slice of `s` from `o`. */
  lemma SliceChain<T>(s: seq<T>, o: nat, t: seq<T>, r: seq<T>)
    requires o <= |s| && t == s[o..] && |r| <= |t| && r == t[..|r|]
    ensures o + |r| <= |s| && r == s[o..o + |r|] && s[o + |r|..] == t[|r|..]
  {
  }

  /** A sequence is the concatenation of its three slices around `o` and `o + n`. */
  lemma Reassemble<T>(s: seq<T>, o: nat, n: nat)
    requires o + n <= |s|
    ensures s == s[..o] + s[o..o + n] + s[o + n..]
  {
  }

  /** `trim` cuts off white space only, on both sides. */
  lemma TrimDropsSpace(s: string)
    ensures AllSpace(s[..TrimOffset(s)]) && AllSpace(s[TrimOffset(s) + |Trim(s)|..])
  {
    var t := TrimStart(s);
    TrimStartDropsSpace(s);
    TrimEndDropsSpace(t);
    SliceChain(s, |s| - |t|, t, TrimEnd(t));
  }

  lemma {:induction false} TrimStartPadded(pre: string, x: string)
    requires AllSpace(pre)
    requires x == [] || !IsJsSpace(x[0])
    ensures TrimStart(pre + x) == x
    decreases |pre|
  {
    if pre != [] {
      assert (pre + x)[1..] == pre[1..] + x;
      TrimStartPadded(pre[1..], x);
    } else {
      assert pre + x == x;
    }
  }

  lemma {:induction false} TrimEndPadded(x: string, post: string)
    requires AllSpace(post)
    requires x == [] || !IsJsSpace(x[|x| - 1])
    ensures TrimEnd(x + post) == x
    decreases |post|
  {
    if post != [] {
      assert (x + post)[..|x + post| - 1] == x + post[..|post| - 1];
      TrimEndPadded(x, post[..|post| - 1]);
    } else {
      assert x + post == x;
    }
  }

  /** Trimming removes exactly the white-space padding around a trimmed text. */
  lemma {:induction false} TrimPadded(pre: string, x: string, post: string)
    requires AllSpace(pre) && AllSpace(post) && Trimmed(x)
    ensures Trim(pre + x + post) == x
  {
    if x == [] {
      assert pre + x + post == pre + post;
      TrimStartPadded(pre + post, []);
      assert (pre + post) + [] == pre + post;
    } else {
      assert pre + x + post == pre + (x + post);
      TrimStartPadded(pre, x + post);
      TrimEndPadded(x, post);
    }
  }

  /** A text with no white space at either end is its own trim. */
  lemma TrimOfTrimmed(x: string)
    requires Trimmed(x)
    ensures Trim(x) == x
  {
    assert [] + x + [] == x;
    TrimPadded([], x, []);
  }

  /** `trim` is idempotent. */
  lemma TrimIdempotent(s: string)
    ensures Trim(Trim(s)) == Trim(s)
  {
    TrimOfTrimmed(Trim(s));
  }

  /**
   * `toLowerCase` on ASCII, Latin-1, the ligature OE and the Kelvin sign.
   * These are all the upper-case characters whose lower case is a character
   * of a word `truthy` accepts.
   */
  function LowerChar(c: char): char {
    if 'A' <= c <= 'Z' || ('\U{C0}' <= c <= '\U{DE}' && c != '\U{D7}') then
      ((c as int) + 32) as char
    else if c == '\U{152}' then '\U{153}'
    else if c == '\U{212A}' then 'k'
    else c
  }

  function Lower(s: string): (r: string)
    ensures |r| == |s|
    ensures forall k :: 0 <= k < |s| ==> r[k] == LowerChar(s[k])
  {
    seq(|s|, k requires 0 <= k < |s| => LowerChar(s[k]))
  }

  /** Lower-casing a lower-cased text changes nothing more. */
  lemma LowerIdempotent(s: string)
    ensures Lower(Lower(s)) == Lower(s)
  {
  }

  lemma LowerKeepsSpace(c: char)
    ensures IsJsSpace(LowerChar(c)) <==> IsJsSpace(c)
  {
  }

  lemma LowerConcat(a: string, b: string, c: string)
    ensures Lower(a + b + c) == Lower(a) + Lower(b) + Lower(c)
  {
  }

  lemma LowerAllSpace(x: string)
    requires AllSpace(x)
    ensures AllSpace(Lower(x))
  {
    forall k | 0 <= k < |x| ensures IsJsSpace(Lower(x)[k]) {
      LowerKeepsSpace(x[k]);
    }
  }

  lemma LowerTrimmed(x: string)
    requires Trimmed(x)
    ensures Trimmed(Lower(x))
  {
    if x != [] {
      LowerKeepsSpace(x[0]);
      LowerKeepsSpace(x[|x| - 1]);
    }
  }

  /** Lower-casing keeps white space where it is, so it commutes with `trim`. */
  lemma {:induction false} TrimLowerCommute(s: string)
    ensures Trim(Lower(s)) == Lower(Trim(s))
  {
    var o := TrimOffset(s);
    var t := Trim(s);
    var pre, post := s[..o], s[o + |t|..];
    TrimDropsSpace(s);
    Reassemble(s, o, |t|);
    LowerConcat(pre, t, post);
    LowerAllSpace(pre);
    LowerAllSpace(post);
    LowerTrimmed(t);
    TrimPadded(Lower(pre), Lower(t), Lower(post));
  }

  /** `Number` applied to a run of decimal digits. */
  function DigitsValue(s: string): (n: nat)
    requires AllDigits(s)
    ensures |s| <= 1 ==> n <= 9
    ensures |s| <= 2 ==> n <= 99
    ensures |s| <= 3 ==> n <= 999
    ensures |s| <= 4 ==> n <= 9999
  {
    if s == [] then 0
    else DigitsValue(s[..|s| - 1]) * 10 + ((s[|s| - 1] as int) - ('0' as int))
  }

  function DigitChar(d: nat): (c: char)
    requires d < 10
    ensures IsDigit(c)
  {
    (('0' as int) + d) as char
  }

  /** The decimal text of `n`, without leading zeros. */
  function NatToString(n: nat): (s: string)
    ensures AllDigits(s) && s != []
    ensures n < 10 ==> |s| == 1
    ensures n < 100 ==> |s| <= 2
  {
    if n < 10 then [DigitChar(n)] else NatToString(n / 10) + [DigitChar(n % 10)]
  }

  /** Two-digit zero-padded text of a number below 100. */
  function Pad2(n: nat): (s: string)
    requires n < 100
    ensures AllDigits(s) && |s| == 2
  {
    [DigitChar(n / 10), DigitChar(n % 10)]
  }

  /** Reading back the decimal text of a number gives the number. */
  lemma {:induction false} NatToStringValue(n: nat)
    ensures DigitsValue(NatToString(n)) == n
  {
    if n >= 10 {
      var s := NatToString(n);
      assert s[..|s| - 1] == NatToString(n / 10);
      NatToStringValue(n / 10);
    }
  }

  lemma Pad2Value(n: nat)
    requires n < 100
    ensures DigitsValue(Pad2(n)) == n
  {
    var s := Pad2(n);
    assert s[..1] == [DigitChar(n / 10)];
    assert s[..0] == [];
  }
}
