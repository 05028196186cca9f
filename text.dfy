/** String helpers with the meaning Python gives them in the save manager:
    `str.strip()`, `str.startswith`, `str.split(c, 1)[1]` and `str(n)` for
    a non-negative integer. */
module Text {

  /** Python's `str.isspace()` for a single character: the characters that
      `str.strip()` with no argument removes. */
  predicate IsSpace(c: char) {
    || c == ' '
    || '\t' <= c <= '\r'
    || '\U{1c}' <= c <= '\U{1f}'
    || c == '\U{85}'
    || c == '\U{a0}'
    || c == '\U{1680}'
    || '\U{2000}' <= c <= '\U{200a}'
    || c == '\U{2028}'
    || c == '\U{2029}'
    || c == '\U{202f}'
    || c == '\U{205f}'
    || c == '\U{3000}'
  }

  /** Drops leading whitespace. */
  function TrimLeft(s: string): (r: string)
    ensures |r| <= |s|
    ensures r == [] || !IsSpace(r[0])
  {
    if s != [] && IsSpace(s[0]) then TrimLeft(s[1..]) else s
  }

  /** Drops trailing whitespace. */
  function TrimRight(s: string): (r: string)
    ensures |r| <= |s|
    ensures r != [] ==> r[0] == s[0]
    ensures r == [] || !IsSpace(r[|r| - 1])
  {
    if s != [] && IsSpace(s[|s| - 1]) then TrimRight(s[..|s| - 1]) else s
  }

  /** Python's `s.strip()`: the result neither starts nor ends with
      whitespace. */
  function Strip(s: string): (r: string)
    ensures |r| <= |s|
    ensures r == [] || (!IsSpace(r[0]) && !IsSpace(r[|r| - 1]))
  {
    TrimRight(TrimLeft(s))
  }

  /** `TrimLeft` keeps a suffix and drops whitespace only. */
  lemma {:induction false} TrimLeftDropsSpace(s: string)
    ensures TrimLeft(s) == s[|s| - |TrimLeft(s)|..]
    ensures forall i :: 0 <= i < |s| - |TrimLeft(s)| ==> IsSpace(s[i])
  {
    if s != [] && IsSpace(s[0]) {
      TrimLeftDropsSpace(s[1..]);
      assert s[1..][|s| - 1 - |TrimLeft(s)|..] == s[|s| - |TrimLeft(s)|..];
      assert forall i :: 1 <= i < |s| - |TrimLeft(s)| ==> s[i] == s[1..][i - 1];
    }
  }

  /** `TrimRight` keeps a prefix and drops whitespace only. */
  lemma {:induction false} TrimRightDropsSpace(s: string)
    ensures TrimRight(s) == s[..|TrimRight(s)|]
    ensures forall i :: |TrimRight(s)| <= i < |s| ==> IsSpace(s[i])
  {
    if s != [] && IsSpace(s[|s| - 1]) {
      TrimRightDropsSpace(s[..|s| - 1]);
      assert s[..|s| - 1][..|TrimRight(s)|] == s[..|TrimRight(s)|];
    }
  }

  /** `Strip(s)` is the slice `s[lo..hi]` and everything outside it is
      whitespace. */
  lemma StripIsInnerSlice(s: string) returns (lo: nat, hi: nat)
    ensures lo <= hi <= |s| && Strip(s) == s[lo..hi]
    ensures forall i :: 0 <= i < lo ==> IsSpace(s[i])
    ensures forall i :: hi <= i < |s| ==> IsSpace(s[i])
  {
    var t := TrimLeft(s);
    TrimLeftDropsSpace(s);
    TrimRightDropsSpace(t);
    lo := |s| - |t|;
    hi := lo + |TrimRight(t)|;
    assert forall i :: hi <= i < |s| ==> s[i] == t[i - lo];
  }

  /** A string that neither starts nor ends with whitespace is its own strip. */
  lemma StripOfTrimmed(s: string)
    requires s == [] || (!IsSpace(s[0]) && !IsSpace(s[|s| - 1]))
    ensures Strip(s) == s
  {
  }

  /** Stripping twice is stripping once. */
  lemma StripIdempotent(s: string)
    ensures Strip(Strip(s)) == Strip(s)
  {
    StripOfTrimmed(Strip(s));
  }

  /** Python's `s.startswith(p)`. */
  predicate StartsWith(s: string, p: string) {
    |p| <= |s| && s[..|p|] == p
  }

  /** Python's `s.split(c, 1)[1]`: everything after the first `c`. */
  function AfterFirst(s: string, c: char): string
    requires c in s
  {
    if s[0] == c then s[1..] else AfterFirst(s[1..], c)
  }

  /** When `c` does not occur in `p`, the first `c` of `p + [c] + rest` is
      the one right after `p`, so everything after it, `rest`, is kept whole
      even if it contains `c` again. */
  lemma {:induction false} AfterFirstPastPrefix(p: string, c: char, rest: string)
    requires c !in p
    ensures c in p + [c] + rest
    ensures AfterFirst(p + [c] + rest, c) == rest
  {
    var s := p + [c] + rest;
    assert s[|p|] == c;
    if p != [] {
      assert s[0] == p[0] != c;
      assert s[1..] == p[1..] + [c] + rest;
      AfterFirstPastPrefix(p[1..], c, rest);
    }
  }

  /** The decimal digit for `d`. */
  function DigitChar(d: nat): char
    requires d < 10
  {
    (48 + d) as char
  }

  /** Python's `str(n)` for a non-negative integer: its decimal digits, most
      significant first, without leading zeros. */
  function NatToString(n: nat): (r: string)
    ensures 1 <= |r|
    ensures 10 <= n ==> 2 <= |r|
    ensures forall i :: 0 <= i < |r| ==> '0' <= r[i] <= '9'
  {
    if n < 10 then [DigitChar(n)] else NatToString(n / 10) + [DigitChar(n % 10)]
  }

  /** Different numbers print differently. */
  lemma {:induction false} NatToStringInjective(a: nat, b: nat)
    requires NatToString(a) == NatToString(b)
    ensures a == b
  {
    var s := NatToString(a);
    if a < 10 || b < 10 {
      // a one-digit number prints as one character, a longer one as two or more
      assert a < 10 && b < 10;
      assert DigitChar(a) == s[0] == DigitChar(b);
    } else {
      assert DigitChar(a % 10) == s[|s| - 1] == DigitChar(b % 10);
      assert NatToString(a / 10) == s[..|s| - 1] == NatToString(b / 10);
      NatToStringInjective(a / 10, b / 10);
    }
  }
}
