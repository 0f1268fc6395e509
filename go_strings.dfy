/** The Go standard-library helpers that the path normaliser calls
    (strings.ToLower, strings.Split, strings.Join, strings.Trim,
    strings.TrimSuffix and filepath.Ext), on strings seen as sequences of
    Unicode code points, with '/' as the only path separator. */
module GoStrings {

  /** os.PathSeparator on the platforms this model covers. */
  const Separator: char := '/'

  predicate IsUpper(c: char) { 'A' <= c <= 'Z' }

  predicate IsLower(c: char) { 'a' <= c <= 'z' }

  /** unicode.ToLower restricted to ASCII: only 'A'..'Z' change. */
  function LowerChar(c: char): (r: char)
    ensures IsLower(r) <==> IsLower(c) || IsUpper(c)
    ensures !IsUpper(c) ==> r == c
    ensures IsUpper(c) ==> r as int - c as int == 'a' as int - 'A' as int
  {
    if IsUpper(c) then (c as int - 'A' as int + 'a' as int) as char else c
  }

  /** strings.ToLower: lowers characters, adds or removes none. */
  function ToLower(s: string): (r: string)
    ensures |r| == |s|
  {
    if s == [] then [] else ToLower(s[..|s| - 1]) + [LowerChar(s[|s| - 1])]
  }

  /** strings.ToLower lowers every character on its own. */
  lemma {:induction false} ToLowerChars(s: string)
    ensures forall i :: 0 <= i < |s| ==> ToLower(s)[i] == LowerChar(s[i])
  {
    if s != [] {
      ToLowerChars(s[..|s| - 1]);
    }
  }

  /** strings.Split(s, "/"): the pieces between separators, empty pieces
      included; there is always at least one piece. */
  function Split(s: string): (r: seq<string>)
    ensures |r| >= 1
    ensures forall i :: 0 <= i < |r| ==> Separator !in r[i]
    ensures Separator !in s ==> r == [s]
  {
    if s == [] then [[]]
    else
      var rest := Split(s[1..]);
      assert s == [s[0]] + s[1..];
      if s[0] == Separator then [[]] + rest
      else [[s[0]] + rest[0]] + rest[1..]
  }

  /** strings.Join(ps, "/"). */
  function Join(ps: seq<string>): (r: string)
    ensures |ps| >= 1 ==> |r| >= |ps[0]|
  {
    if |ps| == 0 then []
    else if |ps| == 1 then ps[0]
    else ps[0] + [Separator] + Join(ps[1..])
  }

  /** strings.TrimLeft(s, cutset) for a one-character cutset. */
  function TrimLeft(s: string, cut: char): (r: string)
    ensures |r| <= |s|
    ensures r != [] ==> r[0] != cut
  {
    if s != [] && s[0] == cut then TrimLeft(s[1..], cut) else s
  }

  /** TrimLeft keeps a suffix and drops only `cut` characters. */
  lemma {:induction false} TrimLeftDrops(s: string, cut: char)
    ensures TrimLeft(s, cut) == s[|s| - |TrimLeft(s, cut)|..]
    ensures forall k :: 0 <= k < |s| - |TrimLeft(s, cut)| ==> s[k] == cut
  {
    if s != [] && s[0] == cut {
      TrimLeftDrops(s[1..], cut);
    }
  }

  /** strings.TrimRight(s, cutset) for a one-character cutset. */
  function TrimRight(s: string, cut: char): (r: string)
    ensures |r| <= |s|
    ensures r != [] ==> r[|r| - 1] != cut
  {
    if s != [] && s[|s| - 1] == cut then TrimRight(s[..|s| - 1], cut) else s
  }

  /** TrimRight keeps a prefix and drops only `cut` characters. */
  lemma {:induction false} TrimRightDrops(s: string, cut: char)
    ensures TrimRight(s, cut) == s[..|TrimRight(s, cut)|]
    ensures forall k :: |TrimRight(s, cut)| <= k < |s| ==> s[k] == cut
  {
    if s != [] && s[|s| - 1] == cut {
      TrimRightDrops(s[..|s| - 1], cut);
    }
  }

  /** r is s[i..i + |r|] and everything outside it is `cut`. */
  predicate IsCutInfix(s: string, r: string, i: nat, cut: char) {
    && i + |r| <= |s|
    && r == s[i..i + |r|]
    && (forall k :: 0 <= k < i ==> s[k] == cut)
    && (forall k :: i + |r| <= k < |s| ==> s[k] == cut)
  }

  /** strings.Trim(s, cutset) for a one-character cutset. */
  function Trim(s: string, cut: char): (r: string)
    ensures r != [] ==> r[0] != cut && r[|r| - 1] != cut
  {
    var left := TrimLeft(s, cut);
    TrimRightDrops(left, cut);
    TrimRight(left, cut)
  }

  /** Trim leaves the infix of s between its leading and trailing runs of
      `cut`, inner runs included; it is empty exactly when s is all `cut`. */
  lemma TrimInfix(s: string, cut: char)
    ensures Trim(s, cut) == [] <==> forall k :: 0 <= k < |s| ==> s[k] == cut
    ensures exists i :: 0 <= i && IsCutInfix(s, Trim(s, cut), i, cut)
  {
    var left := TrimLeft(s, cut);
    TrimLeftDrops(s, cut);
    TrimRightDrops(left, cut);
    var i := |s| - |left|;
    assert IsCutInfix(s, Trim(s, cut), i, cut);
  }

  /** strings.TrimSuffix: s without `suffix` when s ends with it, else s. */
  function TrimSuffix(s: string, suffix: string): (r: string)
    ensures |suffix| <= |s| && s[|s| - |suffix|..] == suffix ==> r + suffix == s
    ensures !(|suffix| <= |s| && s[|s| - |suffix|..] == suffix) ==> r == s
  {
    if |suffix| <= |s| && s[|s| - |suffix|..] == suffix then s[..|s| - |suffix|] else s
  }

  /** The index of the last separator in f[..i + 1], or -1. */
  function LastSeparator(f: string, i: int): (k: int)
    requires -1 <= i < |f|
    ensures -1 <= k <= i
    ensures k >= 0 ==> f[k] == Separator
    ensures forall j :: k < j <= i ==> f[j] != Separator
    decreases i + 1
  {
    if i < 0 || f[i] == Separator then i else LastSeparator(f, i - 1)
  }

  /** The scan of filepath.Ext from index i down: the index of the first
      '.' met, or |f| when a separator or the start of f comes first. */
  function DotIndex(f: string, i: int): (k: int)
    requires -1 <= i < |f|
    ensures k == |f| || (0 <= k <= i && f[k] == '.')
    decreases i + 1
  {
    if i < 0 || f[i] == Separator then |f|
    else if f[i] == '.' then i
    else DotIndex(f, i - 1)
  }

  /** filepath.Ext: the suffix of f from the last '.' of its final element
      (after its last separator), or empty when that element has no '.'. */
  function Ext(f: string): (e: string)
    ensures e != [] ==> e[0] == '.'
  {
    f[DotIndex(f, |f| - 1)..]
  }

  /** strings.TrimSuffix(f, filepath.Ext(f)): the path with its final
      extension removed. */
  function Stem(f: string): (r: string)
    ensures r == f[..DotIndex(f, |f| - 1)]
    ensures r + Ext(f) == f
  {
    TrimSuffix(f, Ext(f))
  }

  /** The scan stops inside the final element: it reports none only when
      that element has no '.', and otherwise the element's last '.'. */
  lemma {:induction false} DotIndexFinal(f: string, i: int)
    requires -1 <= i < |f|
    requires forall j :: i < j < |f| ==> f[j] != '.' && f[j] != Separator
    ensures DotIndex(f, i) == |f| ==> forall j :: LastSeparator(f, i) < j < |f| ==> f[j] != '.'
    ensures DotIndex(f, i) < |f| ==> LastSeparator(f, i) < DotIndex(f, i)
    ensures forall j :: DotIndex(f, i) < j < |f| ==> f[j] != '.' && f[j] != Separator
    decreases i + 1
  {
    if i >= 0 && f[i] != Separator && f[i] != '.' {
      DotIndexFinal(f, i - 1);
    }
  }

  /** The extension lies inside the final element (after the last
      separator) and starts at its last '.'; it is empty only when the final
      element has no '.'. */
  lemma ExtFinalDot(f: string)
    ensures Ext(f) == [] ==> forall j :: LastSeparator(f, |f| - 1) < j < |f| ==> f[j] != '.'
    ensures Ext(f) != [] ==> LastSeparator(f, |f| - 1) < |f| - |Ext(f)|
    ensures forall j :: |f| - |Ext(f)| < j < |f| ==> f[j] != '.' && f[j] != Separator
  {
    DotIndexFinal(f, |f| - 1);
  }

  /** Joining the pieces of a split gives back the string. */
  lemma {:induction false} JoinSplit(s: string)
    ensures Join(Split(s)) == s
  {
    if s != [] {
      JoinSplit(s[1..]);
      var rest := Split(s[1..]);
      var ps := Split(s);
      assert s == [s[0]] + s[1..];
      if s[0] == Separator {
        assert ps == [[]] + rest && ps[1..] == rest;
      } else if |rest| == 1 {
        assert ps == [[s[0]] + rest[0]];
      } else {
        assert ps == [[s[0]] + rest[0]] + rest[1..] && ps[1..] == rest[1..];
        assert Join(rest) == rest[0] + [Separator] + Join(rest[1..]);
      }
    }
  }

  /** Splitting distributes over a separator. */
  lemma {:induction false} SplitAppend(a: string, b: string)
    ensures Split(a + [Separator] + b) == Split(a) + Split(b)
  {
    var s := a + [Separator] + b;
    if a == [] {
      assert s[1..] == b;
    } else {
      assert s[1..] == a[1..] + [Separator] + b;
      SplitAppend(a[1..], b);
    }
  }

  /** Splitting a join of separator-free pieces gives back the pieces. */
  lemma {:induction false} SplitJoin(ps: seq<string>)
    requires |ps| >= 1
    requires forall i :: 0 <= i < |ps| ==> Separator !in ps[i]
    ensures Split(Join(ps)) == ps
  {
    if |ps| > 1 {
      SplitJoin(ps[1..]);
      SplitAppend(ps[0], Join(ps[1..]));
      assert [ps[0]] + ps[1..] == ps;
    }
  }

  /** The scan of p + g from index |p| + i, where p ends in a separator,
      finds what the scan of g finds from index i, shifted by |p|. */
  lemma {:induction false} DotIndexAfterSeparator(p: string, g: string, i: int)
    requires |p| >= 1 && p[|p| - 1] == Separator
    requires -1 <= i < |g|
    ensures DotIndex(p + g, |p| + i) == |p| + DotIndex(g, i)
    decreases i + 1
  {
    if i >= 0 {
      assert (p + g)[|p| + i] == g[i];
      if g[i] != Separator && g[i] != '.' {
        DotIndexAfterSeparator(p, g, i - 1);
      }
    } else {
      assert (p + g)[|p| - 1] == Separator;
    }
  }

  /** filepath.Ext only looks at the final element, so a dot in a directory
      name is never taken for an extension. */
  lemma StemAfterSeparator(a: string, b: string)
    ensures Ext(a + [Separator] + b) == Ext(b)
    ensures Stem(a + [Separator] + b) == a + [Separator] + Stem(b)
  {
    var p := a + [Separator];
    DotIndexAfterSeparator(p, b, |b| - 1);
    var k := DotIndex(b, |b| - 1);
    assert (p + b)[|p| + k..] == b[k..];
    assert (p + b)[..|p| + k] == p + b[..k];
  }
}
