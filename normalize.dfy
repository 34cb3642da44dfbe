/** `fix_url` of passive-dns-cluster.py: the query-name sanitiser applied before eTLD+1 splitting. */
module Normalize {
  import opened Text

  /** `str.isalnum`, restricted to ASCII letters and digits. */
  predicate IsAlnum(c: char) {
    ('a' <= c <= 'z') || ('A' <= c <= 'Z') || ('0' <= c <= '9')
  }

  /** The characters `fix_url` keeps: alphanumerics and `-~_.` */
  predicate IsUrlChar(c: char) {
    IsAlnum(c) || c in "-~_."
  }

  predicate IsDot(c: char) {
    c == '.'
  }

  /** The generator expression inside `fix_url`: position by position, a kept character stays
      and every other character becomes exactly one `.` */
  function DotOthers(url: string): (r: string)
    ensures |r| == |url|
    ensures forall i :: 0 <= i < |url| ==> r[i] == if IsUrlChar(url[i]) then url[i] else '.'
  {
    if url == [] then [] else [if IsUrlChar(url[0]) then url[0] else '.'] + DotOthers(url[1..])
  }

  /** `fix_url(url)`: the dotted string with its leading and trailing dots stripped. Runs of dots
      inside are kept as they are. */
  function FixUrl(url: string): (r: string)
    ensures |r| <= |url|
    ensures r == [] || (r[0] != '.' && r[|r| - 1] != '.')
  {
    Strip(DotOthers(url), IsDot)
  }

  /** Every character of `fix_url(url)` is alphanumeric or one of `-~_.` */
  lemma FixUrlCharset(url: string)
    ensures var r := FixUrl(url); forall k :: 0 <= k < |r| ==> IsUrlChar(r[k])
  {
    FixUrlWindow(url);
    var r, s, i := FixUrl(url), DotOthers(url), StripOffset(DotOthers(url), IsDot);
    forall k | 0 <= k < |r| ensures IsUrlChar(r[k]) {
      assert r[k] == s[i + k];
    }
  }

  /** `fix_url(url)` is a window of the dotted string, with only dots cut away on either side. */
  lemma FixUrlWindow(url: string)
    ensures var r, s, i := FixUrl(url), DotOthers(url), StripOffset(DotOthers(url), IsDot);
      && SliceAt(s, r, i)
      && (forall k :: 0 <= k < i ==> s[k] == '.')
      && (forall k :: i + |r| <= k < |s| ==> s[k] == '.')
  {
    var s := DotOthers(url);
    assert FixUrl(url) == Strip(s, IsDot);
    StripSlice(s, IsDot);
    StripDropsBefore(s, IsDot);
    StripDropsAfter(s, IsDot);
  }

  /** A string made only of kept characters passes the dotting step unchanged. */
  lemma {:induction false} DotOthersKeeps(s: string)
    requires forall i :: 0 <= i < |s| ==> IsUrlChar(s[i])
    ensures DotOthers(s) == s
  {
    if s != [] {
      DotOthersKeeps(s[1..]);
    }
  }

  /** `fix_url` is idempotent. */
  lemma FixUrlIdempotent(url: string)
    ensures FixUrl(FixUrl(url)) == FixUrl(url)
  {
    FixUrlCharset(url);
    FixUrlOfClean(FixUrl(url));
  }

  /** A string of kept characters with no dot at either end is a fixed point of `fix_url`. */
  lemma FixUrlOfClean(t: string)
    requires forall k :: 0 <= k < |t| ==> IsUrlChar(t[k])
    requires t == [] || (t[0] != '.' && t[|t| - 1] != '.')
    ensures FixUrl(t) == t
  {
    DotOthersKeeps(t);
    StripKeeps(t, IsDot);
  }

  /** Runs of replaced characters become runs of dots; nothing collapses them. */
  lemma FixUrlKeepsRepeatedDots()
    ensures FixUrl("a!!b") == "a..b"
  {
    assert DotOthers("a!!b") == "a..b";
    StripKeeps("a..b", IsDot);
  }

  /** Junk after a clean host name (say a trailing `!!`) becomes dots, which are then stripped. */
  lemma FixUrlDropsTrailingJunk(host: string, junk: string)
    requires host != [] && host[0] != '.' && host[|host| - 1] != '.'
    requires forall k :: 0 <= k < |host| ==> IsUrlChar(host[k])
    requires forall k :: 0 <= k < |junk| ==> !IsUrlChar(junk[k])
    ensures FixUrl(host + junk) == host
  {
    var dots := DotOthers(junk);
    var d := DotOthers(host + junk);
    DotOthersKeeps(host);
    assert d == host + dots by {
      assert forall k :: 0 <= k < |host| ==> d[k] == host[k] by {
        forall k | 0 <= k < |host| ensures d[k] == host[k] { assert (host + junk)[k] == host[k]; }
      }
      assert forall k :: |host| <= k < |d| ==> d[k] == dots[k - |host|] by {
        forall k | |host| <= k < |d| ensures d[k] == dots[k - |host|] {
          assert (host + junk)[k] == junk[k - |host|];
        }
      }
    }
    assert TrimStart(d, IsDot) == d;
    TrimEndAfterSuffix(host, dots, IsDot);
    assert FixUrl(host + junk) == TrimEnd(d, IsDot);
  }
}
