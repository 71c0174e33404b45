/**
 * Slash-delimited badge paths ("Social/Union/Star"): the position of the last
 * separator (the source's `path.LastIndexOf('/')`), the parent path (the prefix
 * before that separator) and the chain of ancestors that node creation walks.
 */
module PathIndex {

  const Separator: char := '/'

  /** Index of the last separator in `s`, or -1 when there is none. */
  function LastSlash(s: string): (r: int)
    ensures -1 <= r < |s|
    ensures r >= 0 ==> s[r] == Separator
    ensures forall i :: r < i < |s| ==> s[i] != Separator
    decreases |s|
  {
    if |s| == 0 then -1
    else if s[|s| - 1] == Separator then |s| - 1
    else LastSlash(s[..|s| - 1])
  }

  /** A path whose first character is the separator: node creation rejects it. */
  predicate HasLeadingSlash(s: string)
  {
    |s| > 0 && s[0] == Separator
  }

  /** The parent path: everything before the last separator. */
  function ParentPath(s: string): (r: string)
    requires LastSlash(s) > 0
    ensures 0 < |r| < |s| && s[..|r|] == r && s[|r|] == Separator
    ensures forall i :: |r| < i < |s| ==> s[i] != Separator
  {
    s[..LastSlash(s)]
  }

  /** The paths node creation visits for `s`, root first and `s` last. */
  function Ancestry(s: string): (r: seq<string>)
    ensures r != [] && r[|r| - 1] == s
    decreases |s|
  {
    if LastSlash(s) > 0 then Ancestry(ParentPath(s)) + [s] else [s]
  }

  /** The parent of a path starts the way the path does. */
  lemma ParentKeepsLeadingSlash(s: string)
    requires LastSlash(s) > 0
    ensures HasLeadingSlash(ParentPath(s)) <==> HasLeadingSlash(s)
  {
  }

  /**
   * The key a node is stored under (`GetNodeHash`): the path read as a number
   * in base 0x11_0001 (one more than the largest character code), one digit
   * per character, each digit shifted up by one so that none is zero. Unlike
   * the engine's 32-bit string hash it never maps two paths to one key, which
   * the manager takes for granted.
   */
  function PathKey(s: string): (k: nat)
    ensures s != [] ==> k > 0
  {
    KeyOfPrefix(s, |s|)
  }

  /** The key of the first `n` characters of `s`. */
  function KeyOfPrefix(s: string, n: nat): (k: nat)
    requires n <= |s|
    ensures n > 0 ==> k > 0
  {
    if n == 0 then 0
    else KeyOfPrefix(s, n - 1) * 0x11_0001 + (s[n - 1] as int + 1)
  }

  /** Two numbers with the same value written in base 0x11_0001 with non-zero
      last digits have the same last digit and the same leading part. */
  lemma LastDigit(a: nat, x: int, b: nat, y: int)
    requires 0 < x < 0x11_0001 && 0 < y < 0x11_0001
    requires a * 0x11_0001 + x == b * 0x11_0001 + y
    ensures a == b && x == y
  {
  }

  /** Prefixes with the same key are the same string. */
  lemma {:induction false} KeyOfPrefixInjective(s: string, n: nat, t: string, m: nat)
    requires n <= |s| && m <= |t|
    ensures KeyOfPrefix(s, n) == KeyOfPrefix(t, m) ==> s[..n] == t[..m]
    decreases n
  {
    if KeyOfPrefix(s, n) == KeyOfPrefix(t, m) && n > 0 && m > 0 {
      LastDigit(KeyOfPrefix(s, n - 1), s[n - 1] as int + 1, KeyOfPrefix(t, m - 1), t[m - 1] as int + 1);
      KeyOfPrefixInjective(s, n - 1, t, m - 1);
      assert s[..n] == s[..n - 1] + [s[n - 1]] && t[..m] == t[..m - 1] + [t[m - 1]];
    }
  }

  /** Different paths never share a key. */
  lemma PathKeyInjective(s: string, t: string)
    ensures PathKey(s) == PathKey(t) ==> s == t
  {
    KeyOfPrefixInjective(s, |s|, t, |t|);
    assert s[..|s|] == s && t[..|t|] == t;
  }

  /** Every element of the ancestry is a prefix of the path that is the whole
      path or is followed by a separator. */
  lemma {:induction false} AncestorsArePrefixes(s: string, q: string)
    requires q in Ancestry(s)
    ensures |q| <= |s| && s[..|q|] == q
    ensures |q| < |s| ==> s[|q|] == Separator
    decreases |s|
  {
    if LastSlash(s) > 0 && q != s {
      var p := ParentPath(s);
      assert q in Ancestry(p);
      AncestorsArePrefixes(p, q);
      assert s[..|p|] == p;
      assert s[..|q|] == p[..|q|];
      if |q| < |p| {
        assert s[|q|] == p[|q|];
      }
    }
  }

  /** Conversely, every non-empty prefix that ends just before a separator is
      an ancestor: creating "a/b/c" visits "a" and "a/b". */
  lemma {:induction false} SlashPrefixIsAncestor(s: string, i: int)
    requires 0 < i < |s| && s[i] == Separator
    ensures s[..i] in Ancestry(s)
    decreases |s|
  {
    var last := LastSlash(s);
    assert last >= i;
    var p := ParentPath(s);
    if last == i {
      assert p == s[..i];
      assert Ancestry(s) == Ancestry(p) + [s];
    } else {
      assert p[i] == s[i] && p[..i] == s[..i];
      SlashPrefixIsAncestor(p, i);
      assert Ancestry(s) == Ancestry(p) + [s];
    }
  }
}
