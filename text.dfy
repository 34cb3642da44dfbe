/** The few pieces of Python's `str` behaviour that the two programs rely on. */
module Text {

  /** Python's `str.isspace` for a single character (every code point Python counts as whitespace). */
  predicate IsSpace(c: char) {
    || ('\t' <= c <= '\r')
    || ('\U{1c}' <= c <= '\U{1f}')
    || c == ' '
    || c == '\U{85}'
    || c == '\U{a0}'
    || c == '\U{1680}'
    || ('\U{2000}' <= c <= '\U{200a}')
    || c == '\U{2028}'
    || c == '\U{2029}'
    || c == '\U{202f}'
    || c == '\U{205f}'
    || c == '\U{3000}'
  }

  /** `s.startswith(p)` */
  predicate StartsWith(s: string, p: string) {
    |p| <= |s| && s[..|p|] == p
  }

  /** `t` occurs in `s` starting at index `i`. */
  predicate SliceAt(s: string, t: string, i: int) {
    0 <= i <= |s| - |t| && s[i..i + |t|] == t
  }

  /** `t in s` for two strings: `t` occurs as a substring of `s`. */
  predicate Contains(s: string, t: string) {
    exists i | 0 <= i <= |s| - |t| :: SliceAt(s, t, i)
  }

  /** Drops the leading characters that satisfy `drop`. */
  function TrimStart(s: string, drop: char -> bool): (r: string)
    ensures |r| <= |s| && r == s[|s| - |r|..]
    ensures r == [] || !drop(r[0])
  {
    if s != [] && drop(s[0]) then TrimStart(s[1..], drop) else s
  }

  /** Every character `TrimStart` removes is dropped. */
  lemma {:induction false} TrimStartDrops(s: string, drop: char -> bool)
    ensures forall i :: 0 <= i < |s| - |TrimStart(s, drop)| ==> drop(s[i])
  {
    if s != [] && drop(s[0]) {
      TrimStartDrops(s[1..], drop);
      forall i | 1 <= i < |s| - |TrimStart(s, drop)| ensures drop(s[i]) {
        assert s[i] == s[1..][i - 1];
      }
    }
  }

  /** Drops the trailing characters that satisfy `drop`. */
  function TrimEnd(s: string, drop: char -> bool): (r: string)
    ensures |r| <= |s| && r == s[..|r|]
    ensures r == [] || !drop(r[|r| - 1])
  {
    if s != [] && drop(s[|s| - 1]) then TrimEnd(s[..|s| - 1], drop) else s
  }

  /** Every character `TrimEnd` removes is dropped. */
  lemma {:induction false} TrimEndDrops(s: string, drop: char -> bool)
    ensures forall i :: |TrimEnd(s, drop)| <= i < |s| ==> drop(s[i])
  {
    if s != [] && drop(s[|s| - 1]) {
      TrimEndDrops(s[..|s| - 1], drop);
      forall i | |TrimEnd(s, drop)| <= i < |s| - 1 ensures drop(s[i]) {
        assert s[i] == s[..|s| - 1][i];
      }
    }
  }

  /** `s.strip(chars)`: both ends trimmed. */
  function Strip(s: string, drop: char -> bool): (r: string)
    ensures |r| <= |s|
    ensures r == [] || (!drop(r[0]) && !drop(r[|r| - 1]))
  {
    TrimEnd(TrimStart(s, drop), drop)
  }

  /** Where `Strip` starts cutting its result out of `s`. */
  function StripOffset(s: string, drop: char -> bool): nat {
    |s| - |TrimStart(s, drop)|
  }

  /** The stripped string is the window of `s` at `StripOffset`. */
  lemma StripSlice(s: string, drop: char -> bool)
    ensures SliceAt(s, Strip(s, drop), StripOffset(s, drop))
  {
    var t := TrimStart(s, drop);
    var r := TrimEnd(t, drop);
    var i := |s| - |t|;
    assert t == s[i..];
    assert r == t[..|r|];
    assert s[i..i + |r|] == r;
  }

  /** Everything before the window is dropped. */
  lemma StripDropsBefore(s: string, drop: char -> bool)
    ensures forall k :: 0 <= k < StripOffset(s, drop) ==> drop(s[k])
  {
    TrimStartDrops(s, drop);
  }

  /** Everything after the window is dropped. */
  lemma StripDropsAfter(s: string, drop: char -> bool)
    ensures forall k :: StripOffset(s, drop) + |Strip(s, drop)| <= k < |s| ==> drop(s[k])
  {
    var t := TrimStart(s, drop);
    var r := TrimEnd(t, drop);
    var i := |s| - |t|;
    TrimEndDrops(t, drop);
    forall k | i + |r| <= k < |s| ensures drop(s[k]) {
      assert s[k] == t[k - i];
    }
  }

  /** An occurrence of `t` cannot start inside a prefix that lacks `t`'s first character. */
  lemma ContainsAfterPrefix(pre: string, s: string, t: string)
    requires t != [] && forall k :: 0 <= k < |pre| ==> pre[k] != t[0]
    requires Contains(pre + s, t)
    ensures Contains(s, t)
  {
    var i :| 0 <= i <= |pre + s| - |t| && SliceAt(pre + s, t, i);
    assert (pre + s)[i] == t[0];
    assert i >= |pre|;
    assert s[i - |pre|..i - |pre| + |t|] == (pre + s)[i..i + |t|];
    assert SliceAt(s, t, i - |pre|);
  }

  /** An occurrence of `t` cannot end inside a suffix that lacks `t`'s last character. */
  lemma ContainsBeforeSuffix(s: string, suf: string, t: string)
    requires t != [] && forall k :: 0 <= k < |suf| ==> suf[k] != t[|t| - 1]
    requires Contains(s + suf, t)
    ensures Contains(s, t)
  {
    var i :| 0 <= i <= |s + suf| - |t| && SliceAt(s + suf, t, i);
    assert (s + suf)[i + |t| - 1] == t[|t| - 1];
    assert i + |t| <= |s|;
    assert s[i..i + |t|] == (s + suf)[i..i + |t|];
    assert SliceAt(s, t, i);
  }

  /** `s.strip()` with no argument. */
  function StripSpace(s: string): string {
    Strip(s, IsSpace)
  }

  /** A string whose two ends are already kept by `drop` is its own strip. */
  lemma StripKeeps(s: string, drop: char -> bool)
    requires s == [] || (!drop(s[0]) && !drop(s[|s| - 1]))
    ensures Strip(s, drop) == s
  {
  }

  /** Stripping ignores a prefix made only of dropped characters. */
  lemma {:induction false} StripAfterPrefix(pre: string, s: string, drop: char -> bool)
    requires forall k :: 0 <= k < |pre| ==> drop(pre[k])
    ensures Strip(pre + s, drop) == Strip(s, drop)
  {
    TrimStartAfterPrefix(pre, s, drop);
  }

  lemma {:induction false} TrimStartAfterPrefix(pre: string, s: string, drop: char -> bool)
    requires forall k :: 0 <= k < |pre| ==> drop(pre[k])
    ensures TrimStart(pre + s, drop) == TrimStart(s, drop)
  {
    if pre != [] {
      var whole, rest := pre + s, pre[1..];
      assert whole[0] == pre[0];
      assert whole[1..] == rest + s;
      assert forall k :: 0 <= k < |rest| ==> drop(rest[k]) by {
        forall k | 0 <= k < |rest| ensures drop(rest[k]) { assert rest[k] == pre[k + 1]; }
      }
      TrimStartAfterPrefix(rest, s, drop);
      assert drop(whole[0]);
      assert TrimStart(whole, drop) == TrimStart(whole[1..], drop);
    } else {
      assert pre + s == s;
    }
  }

  /** Trimming the end ignores a suffix made only of dropped characters. */
  lemma {:induction false} TrimEndAfterSuffix(s: string, suf: string, drop: char -> bool)
    requires forall k :: 0 <= k < |suf| ==> drop(suf[k])
    ensures TrimEnd(s + suf, drop) == TrimEnd(s, drop)
  {
    if suf != [] {
      var whole, init := s + suf, suf[..|suf| - 1];
      assert whole[|whole| - 1] == suf[|suf| - 1];
      assert whole[..|whole| - 1] == s + init;
      assert forall k :: 0 <= k < |init| ==> drop(init[k]) by {
        forall k | 0 <= k < |init| ensures drop(init[k]) { assert init[k] == suf[k]; }
      }
      TrimEndAfterSuffix(s, init, drop);
      assert drop(whole[|whole| - 1]);
      assert TrimEnd(whole, drop) == TrimEnd(whole[..|whole| - 1], drop);
    } else {
      assert s + suf == s;
    }
  }

  /** `sep.join(parts)` */
  function Join(parts: seq<string>, sep: string): string {
    if |parts| == 0 then ""
    else if |parts| == 1 then parts[0]
    else parts[0] + sep + Join(parts[1..], sep)
  }

  predicate IsDigit(c: char) {
    '0' <= c <= '9'
  }

  /** `str(n)` for a natural number: its decimal digits, without leading zeros. */
  function Decimal(n: nat): (r: string)
    ensures r != []
    ensures forall k :: 0 <= k < |r| ==> IsDigit(r[k])
    ensures r[0] == '0' ==> n == 0
  {
    var d := ['0' + (n % 10) as char];
    if n < 10 then d else Decimal(n / 10) + d
  }
}
