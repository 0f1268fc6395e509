/** What filePathAsURL promises about the route it returns: its shape,
    when it fails, that it is a fixed point, and which separators and dots
    of the input it ignores. */
module RouteProps {
  import opened GoStrings
  import opened UrlPath

  /** Joined normal components hold only 'a'..'z', '-' and separators. */
  lemma {:induction false} JoinAllowed(ps: seq<string>)
    requires forall i :: 0 <= i < |ps| ==> IsNormalPart(ps[i])
    ensures forall k :: 0 <= k < |Join(ps)| ==> IsAllowed(Join(ps)[k]) || Join(ps)[k] == Separator
  {
    if |ps| > 1 {
      JoinAllowed(ps[1..]);
      var r := Join(ps);
      assert r == ps[0] + [Separator] + Join(ps[1..]);
      forall k | 0 <= k < |r| ensures IsAllowed(r[k]) || r[k] == Separator {
        if k < |ps[0]| {
          assert r[k] == ps[0][k];
        } else if k > |ps[0]| {
          assert r[k] == Join(ps[1..])[k - |ps[0]| - 1];
        }
      }
    }
  }

  /** A path with no '.' has no extension to strip. */
  lemma NoDotNoStem(r: string)
    requires forall k :: 0 <= k < |r| ==> r[k] != '.'
    ensures Stem(r) == r
  {
    assert DotIndex(r, |r| - 1) == |r|;
  }

  /** Normal components hold no separator. */
  lemma NormalPartsNoSeparator(ps: seq<string>)
    requires forall i :: 0 <= i < |ps| ==> IsNormalPart(ps[i])
    ensures forall i :: 0 <= i < |ps| ==> Separator !in ps[i]
  {
    forall i | 0 <= i < |ps| ensures Separator !in ps[i] {
      assert forall k :: 0 <= k < |ps[i]| ==> IsAllowed(ps[i][k]);
    }
  }

  /** Splitting "/" + Join(ps) gives an empty piece, then ps. */
  lemma SplitRoute(ps: seq<string>)
    requires forall i :: 0 <= i < |ps| ==> IsNormalPart(ps[i])
    ensures Split([Separator] + Join(ps)) == [[]] + (if ps == [] then [[]] else ps)
  {
    var j := Join(ps);
    SplitAppend([], j);
    assert [] + [Separator] + j == [Separator] + j;
    if ps != [] {
      NormalPartsNoSeparator(ps);
      SplitJoin(ps);
    }
  }

  /** A route holds no '.', so it has no extension to strip. */
  lemma RouteNoDot(ps: seq<string>)
    requires forall i :: 0 <= i < |ps| ==> IsNormalPart(ps[i])
    ensures forall k :: 0 <= k < |[Separator] + Join(ps)| ==> ([Separator] + Join(ps))[k] != '.'
  {
    var r := [Separator] + Join(ps);
    JoinAllowed(ps);
    forall k | 0 <= k < |r| ensures r[k] != '.' {
      if k > 0 { assert r[k] == Join(ps)[k - 1]; }
    }
  }

  /** Dropping the empty pieces of a route's split leaves its components. */
  lemma NonEmptyRoute(ps: seq<string>)
    requires forall i :: 0 <= i < |ps| ==> IsNormalPart(ps[i])
    ensures NonEmpty([[]] + (if ps == [] then [[]] else ps)) == ps
  {
    var none: seq<string> := [[]];
    assert NonEmpty(none) == [] by {
      assert none[..0] == [];
    }
    if ps == [] {
      NonEmptyAppend(none, none);
    } else {
      NonEmptyAppend(none, ps);
      NonEmptyKeeps(ps);
    }
  }

  /** The components of "/" + Join(ps) are ps again, for normal ps. */
  lemma ComponentsOfJoin(ps: seq<string>)
    requires forall i :: 0 <= i < |ps| ==> IsNormalPart(ps[i])
    ensures Components([Separator] + Join(ps)) == ps
  {
    var r := [Separator] + Join(ps);
    RouteNoDot(ps);
    NoDotNoStem(r);
    SplitRoute(ps);
    NonEmptyRoute(ps);
    assert Components(r) == NonEmpty(Split(r));
  }

  /** The route a successful final loop produces. */
  lemma RouteOfOk(comps: seq<string>, ps: seq<string>)
    requires NormAll(comps) == Ok(ps)
    ensures RouteOf(comps) == Ok([Separator] + Join(ps))
  {
  }

  /** On success the route starts with the separator, holds only 'a'..'z',
      '-' and the separator, and is exactly "/" when the path has no
      non-empty component. */
  lemma RouteShape(f: string)
    requires Route(f).Ok?
    ensures |Route(f).value| >= 1 && Route(f).value[0] == Separator
    ensures forall k :: 0 <= k < |Route(f).value| ==> IsAllowed(Route(f).value[k]) || Route(f).value[k] == Separator
    ensures Route(f).value == [Separator] <==> Components(f) == []
  {
    var comps := Components(f);
    var ps := NormAll(comps).value;
    RouteOfOk(comps, ps);
    NormAllOk(comps, ps);
    assert forall i :: 0 <= i < |ps| ==> IsNormalPart(ps[i]) by {
      forall i | 0 <= i < |ps| ensures IsNormalPart(ps[i]) {
        assert NormPart(comps[i]) == Ok(ps[i]);
      }
    }
    JoinShape(ps);
  }

  /** "/" + Join(ps), for normal ps, holds only 'a'..'z', '-' and the
      separator, and is exactly "/" when ps is empty. */
  lemma JoinShape(ps: seq<string>)
    requires forall i :: 0 <= i < |ps| ==> IsNormalPart(ps[i])
    ensures forall k :: 0 <= k < |[Separator] + Join(ps)| ==> IsAllowed(([Separator] + Join(ps))[k]) || ([Separator] + Join(ps))[k] == Separator
    ensures [Separator] + Join(ps) == [Separator] <==> ps == []
  {
    var r := [Separator] + Join(ps);
    JoinAllowed(ps);
    forall k | 0 <= k < |r| ensures IsAllowed(r[k]) || r[k] == Separator {
      if k > 0 { assert r[k] == Join(ps)[k - 1]; }
    }
    if ps != [] {
      assert |Join(ps)| >= |ps[0]| > 0;
    }
  }

  /** On success the route's own components are the normal forms of the
      path's non-empty components: as many, in the same order. */
  lemma RouteComponents(f: string)
    requires Route(f).Ok?
    ensures |Components(Route(f).value)| == |Components(f)|
    ensures forall k :: 0 <= k < |Components(f)| ==> NormPart(Components(f)[k]) == Ok(Components(Route(f).value)[k])
  {
    var comps := Components(f);
    var ps := NormAll(comps).value;
    RouteOfOk(comps, ps);
    NormAllOk(comps, ps);
    ComponentsOfJoin(ps);
  }

  /** The normaliser fails, with its one message, exactly when some
      non-empty component of the path holds no ASCII letter; no component
      is skipped. */
  lemma RouteFailsIff(f: string)
    ensures Route(f).Err? <==> exists k :: 0 <= k < |Components(f)| && NoLetter(Components(f)[k])
    ensures Route(f).Err? ==> Route(f) == Err(EmptyComponentMsg)
  {
    var comps := Components(f);
    NormAllFails(comps);
    forall k | 0 <= k < |comps| ensures NormPart(comps[k]).Err? <==> NoLetter(comps[k]) {
      NormPartFailsIff(comps[k]);
    }
  }

  /** With no non-empty component the route is the root. */
  lemma RootRoute(f: string)
    requires Components(f) == []
    ensures Route(f) == Ok([Separator])
  {
    NormAllOk([], []);
    RouteOfOk([], []);
    assert [Separator] + Join([]) == [Separator];
  }

  /** Feeding a successful route back in returns it unchanged. */
  lemma RouteIdempotent(f: string)
    requires Route(f).Ok?
    ensures Route(Route(f).value) == Route(f)
  {
    var comps := Components(f);
    var ps := NormAll(comps).value;
    RouteOfOk(comps, ps);
    NormAllOk(comps, ps);
    forall k | 0 <= k < |ps| ensures NormPart(ps[k]) == Ok(ps[k]) {
      NormalPartFixed(ps[k]);
    }
    ComponentsOfJoin(ps);
    NormAllOk(ps, ps);
    RouteOfOk(ps, ps);
  }

  /** A leading separator changes nothing. */
  lemma LeadingSeparatorIgnored(f: string)
    ensures Route([Separator] + f) == Route(f)
  {
    LeadingSeparatorComponents(f);
  }

  lemma LeadingSeparatorComponents(f: string)
    ensures Components([Separator] + f) == Components(f)
  {
    StemAfterSeparator([], f);
    assert [] + [Separator] + f == [Separator] + f;
    SplitAppend([], Stem(f));
    assert [] + [Separator] + Stem(f) == [Separator] + Stem(f);
    NonEmptyAppend(Split([]), Split(Stem(f)));
  }

  /** A doubled separator reads as a single one. */
  lemma DoubledSeparatorIgnored(a: string, b: string)
    ensures Route(a + [Separator, Separator] + b) == Route(a + [Separator] + b)
  {
    DoubledSeparatorComponents(a, b);
  }

  lemma DoubledSeparatorComponents(a: string, b: string)
    ensures Components(a + [Separator, Separator] + b) == Components(a + [Separator] + b)
  {
    var a' := a + [Separator];
    assert a + [Separator, Separator] + b == a' + [Separator] + b;
    DirectoriesKeepDots(a', b);
    DirectoriesKeepDots(a, b);
    TrailingSeparatorSplit(a);
  }

  /** A trailing separator adds only an empty piece, which is dropped. */
  lemma TrailingSeparatorSplit(a: string)
    ensures NonEmpty(Split(a + [Separator])) == NonEmpty(Split(a))
  {
    SplitAppend(a, []);
    assert a + [Separator] + [] == a + [Separator];
    var none: seq<string> := [[]];
    assert Split([]) == none;
    assert NonEmpty(none) == [] by {
      assert none[..0] == [];
    }
    NonEmptyAppend(Split(a), none);
  }

  /** A trailing separator changes nothing when the final element has no
      extension. */
  lemma TrailingSeparatorIgnored(f: string)
    requires Ext(f) == []
    ensures Route(f + [Separator]) == Route(f)
  {
    TrailingSeparatorComponents(f);
  }

  lemma TrailingSeparatorComponents(f: string)
    requires Ext(f) == []
    ensures Components(f + [Separator]) == Components(f)
  {
    var g := f + [Separator];
    assert g[|g| - 1] == Separator;
    assert Stem(g) == g;
    assert Stem(f) == f;
    TrailingSeparatorSplit(f);
  }

  /** After a trailing separator the final element is a directory, so its
      extension is kept, dot included, as part of the last component:
      `a/b.md/` has the components `a` and `b.md`. */
  lemma TrailingSeparatorKeepsExtension(f: string)
    requires Ext(f) != []
    ensures Components(f + [Separator]) == NonEmpty(Split(f))
    ensures Route(f + [Separator]) == RouteOf(NonEmpty(Split(f)))
  {
    var g := f + [Separator];
    assert g[|g| - 1] == Separator;
    assert Stem(g) == g;
    TrailingSeparatorSplit(f);
  }

  /** Only the final element loses its extension: directory names keep
      their dots until normalisation drops them. */
  lemma DirectoriesKeepDots(a: string, b: string)
    ensures Components(a + [Separator] + b) == NonEmpty(Split(a)) + Components(b)
  {
    StemAfterSeparator(a, b);
    SplitAppend(a, Stem(b));
    NonEmptyAppend(Split(a), Split(Stem(b)));
  }
}
