/** The path-to-route normaliser as a pure specification: strip the final
    extension, split on '/', drop empty components, normalise each one
    (lower-case, space and '_' to '-', keep only 'a'..'z' and '-', trim
    dashes, fail on empty), and rejoin behind a leading '/'. */
module UrlPath {
  import opened GoStrings

  datatype Result<T> = Ok(value: T) | Err(msg: string)

  /** The one error the normaliser reports. */
  const EmptyComponentMsg := "path resolved to empty string"

  /** The characters a component may keep (the okChars table). */
  const OkCharList := "abcdefghijklmnopqrstuvwxyz-"

  /** The characters that become a dash (the dashChars table). */
  const DashChars := [' ', '_']

  predicate IsAllowed(c: char) { IsLower(c) || c == '-' }

  predicate IsLetter(c: char) { IsLower(c) || IsUpper(c) }

  /** s holds no ASCII letter, in either case. */
  predicate NoLetter(s: string) { forall k :: 0 <= k < |s| ==> !IsLetter(s[k]) }

  /** What one already-lowered character contributes to a component. */
  function MapChar(c: char): (r: string)
    ensures |r| <= 1
  {
    if c in DashChars then "-" else if IsAllowed(c) then [c] else []
  }

  /** A dash character becomes '-', an allowed character stays, and every
      other character is dropped. */
  lemma MapCharCases(c: char)
    ensures MapChar(c) == [] <==> !IsAllowed(c) && c !in DashChars
    ensures MapChar(c) == "-" <==> c == '-' || c in DashChars
    ensures MapChar(c) != [] && MapChar(c) != "-" ==> MapChar(c) == [c] && IsLower(c)
  {
  }

  /** The per-character pass over a lowered component, before trimming. */
  function Fold(t: string): (r: string)
    ensures |r| <= |t|
  {
    if t == [] then [] else Fold(t[..|t| - 1]) + MapChar(t[|t| - 1])
  }

  /** The per-character pass keeps only 'a'..'z' and '-'. */
  lemma {:induction false} FoldAllowed(t: string)
    ensures forall k :: 0 <= k < |Fold(t)| ==> IsAllowed(Fold(t)[k])
  {
    if t != [] {
      FoldAllowed(t[..|t| - 1]);
    }
  }

  /** One more character of the per-character pass. */
  lemma FoldStep(t: string, j: nat)
    requires j < |t|
    ensures Fold(t[..j + 1]) == Fold(t[..j]) + MapChar(t[j])
  {
    assert t[..j + 1][..j] == t[..j];
  }

  /** The pass maps each character on its own: a one-character component
      gives that character's mapping. */
  lemma FoldChar(c: char)
    ensures Fold([c]) == MapChar(c)
  {
    assert [c][..0] == [];
  }

  /** A component split in two gives the two halves' outputs, in order. */
  lemma {:induction false} FoldAppend(a: string, b: string)
    ensures Fold(a + b) == Fold(a) + Fold(b)
  {
    if b != [] {
      var b' := b[..|b| - 1];
      FoldAppend(a, b');
      assert (a + b)[..|a + b| - 1] == a + b';
    } else {
      assert a + b == a;
    }
  }

  /** A component the normaliser can emit. */
  predicate IsNormalPart(p: string) {
    && |p| > 0
    && p[0] != '-'
    && p[|p| - 1] != '-'
    && forall k :: 0 <= k < |p| ==> IsAllowed(p[k])
  }

  /** normParts: one path component, normalised or rejected. */
  function NormPart(s: string): (r: Result<string>)
    ensures r.Ok? ==> IsNormalPart(r.value)
    ensures r.Err? ==> r.msg == EmptyComponentMsg
  {
    var folded := Fold(ToLower(s));
    FoldAllowed(ToLower(s));
    var t := Trim(folded, '-');
    TrimKeepsAllowed(folded);
    if |t| < 1 then Err(EmptyComponentMsg) else Ok(t)
  }

  lemma TrimKeepsAllowed(s: string)
    requires forall k :: 0 <= k < |s| ==> IsAllowed(s[k])
    ensures forall k :: 0 <= k < |Trim(s, '-')| ==> IsAllowed(Trim(s, '-')[k])
  {
    var t := Trim(s, '-');
    TrimInfix(s, '-');
    var i :| 0 <= i && IsCutInfix(s, t, i, '-');
    assert forall k :: 0 <= k < |t| ==> t[k] == s[i + k];
  }

  /** The filter closure: the components in order, without the empty ones. */
  function NonEmpty(ss: seq<string>): (r: seq<string>)
    ensures |r| <= |ss|
  {
    if ss == [] then []
    else
      var last := ss[|ss| - 1];
      NonEmpty(ss[..|ss| - 1]) + (if last == [] then [] else [last])
  }

  /** The final loop for any per-component step: apply it to every
      component, left to right, stopping at the first rejection. */
  function MapAll(step: string -> Result<string>, xs: seq<string>): (r: Result<seq<string>>)
    ensures r.Err? ==> exists k :: 0 <= k < |xs| && step(xs[k]) == Err(r.msg)
    ensures r.Ok? ==> |r.value| == |xs|
  {
    if xs == [] then Ok([])
    else
      var xs', x := xs[..|xs| - 1], xs[|xs| - 1];
      match MapAll(step, xs')
      case Err(e) =>
        var k :| 0 <= k < |xs'| && step(xs'[k]) == Err(e);
        assert xs[k] == xs'[k];
        Err(e)
      case Ok(ps) =>
        match step(x)
        case Err(e) => Err(e)
        case Ok(p) => Ok(ps + [p])
  }

  /** The final loop of the normaliser. */
  function NormAll(xs: seq<string>): (r: Result<seq<string>>)
    ensures r.Err? ==> r.msg == EmptyComponentMsg
    ensures r.Ok? ==> |r.value| == |xs|
  {
    MapAll(NormPart, xs)
  }

  /** The non-empty components of a path, after the extension is stripped. */
  function Components(f: string): (r: seq<string>)
    ensures forall i :: 0 <= i < |r| ==> r[i] != [] && Separator !in r[i]
  {
    var ss := Split(Stem(f));
    NonEmptyMembers(ss);
    assert forall i :: 0 <= i < |NonEmpty(ss)| ==> NonEmpty(ss)[i] in ss;
    NonEmpty(ss)
  }

  /** The route for a path's non-empty components: each normalised, then
      joined behind a leading separator. */
  function RouteOf(comps: seq<string>): (r: Result<string>)
    ensures r.Ok? ==> |r.value| >= 1 && r.value[0] == Separator
    ensures r.Err? ==> r.msg == EmptyComponentMsg
  {
    match NormAll(comps)
    case Err(e) => Err(e)
    case Ok(ps) => Ok([Separator] + Join(ps))
  }

  /** filePathAsURL. */
  function Route(f: string): (r: Result<string>)
    ensures r.Ok? ==> |r.value| >= 1 && r.value[0] == Separator
    ensures r.Err? ==> r.msg == EmptyComponentMsg
  {
    RouteOf(Components(f))
  }

  // ---------------------------------------------------------------------
  // Components

  lemma {:induction false} NonEmptyAppend(a: seq<string>, b: seq<string>)
    ensures NonEmpty(a + b) == NonEmpty(a) + NonEmpty(b)
  {
    if b != [] {
      var b' := b[..|b| - 1];
      assert (a + b)[..|a + b| - 1] == a + b';
      NonEmptyAppend(a, b');
    } else {
      assert a + b == a;
    }
  }

  /** The filter keeps exactly the non-empty components. */
  lemma {:induction false} NonEmptyMembers(ss: seq<string>)
    ensures forall s :: s in NonEmpty(ss) <==> s in ss && s != []
  {
    if ss != [] {
      var ss', last := ss[..|ss| - 1], ss[|ss| - 1];
      NonEmptyMembers(ss');
      assert ss == ss' + [last];
    }
  }

  /** Dropping empty components keeps the non-empty ones in order. */
  lemma {:induction false} NonEmptyKeeps(ss: seq<string>)
    requires forall i :: 0 <= i < |ss| ==> ss[i] != []
    ensures NonEmpty(ss) == ss
  {
    if ss != [] {
      NonEmptyKeeps(ss[..|ss| - 1]);
    }
  }

  // ---------------------------------------------------------------------
  // One component

  predicate AllDashes(s: string) { forall k :: 0 <= k < |s| ==> s[k] == '-' }

  lemma {:induction false} FoldAllDashes(t: string)
    ensures AllDashes(Fold(t)) <==> forall k :: 0 <= k < |t| ==> !IsLower(t[k])
  {
    if t != [] {
      var t' := t[..|t| - 1];
      FoldAllDashes(t');
      var c := t[|t| - 1];
      assert Fold(t) == Fold(t') + MapChar(c);
      if IsLower(c) {
        assert Fold(t)[|Fold(t')|] == c;
      } else if forall k :: 0 <= k < |t'| ==> !IsLower(t'[k]) {
        assert forall k :: 0 <= k < |t| ==> !IsLower(t[k]) by {
          forall k | 0 <= k < |t| ensures !IsLower(t[k]) {
            if k < |t'| { assert t[k] == t'[k]; }
          }
        }
      } else {
        var k :| 0 <= k < |t'| && IsLower(t'[k]);
        assert t[k] == t'[k];
        assert !AllDashes(Fold(t'));
        var j :| 0 <= j < |Fold(t')| && Fold(t')[j] != '-';
        assert Fold(t)[j] == Fold(t')[j];
      }
    }
  }

  /** A component is rejected exactly when it holds no ASCII letter: digits,
      dots and punctuation are dropped and dashes are trimmed away. */
  lemma NormPartFailsIff(s: string)
    ensures NormPart(s).Err? <==> NoLetter(s)
  {
    var lowered := ToLower(s);
    ToLowerChars(s);
    FoldAllDashes(lowered);
    TrimInfix(Fold(lowered), '-');
    assert NoLetter(s) <==> (forall k :: 0 <= k < |lowered| ==> !IsLower(lowered[k]));
  }

  /** A normalised component is the per-character output with only its
      leading and trailing dashes removed: inner runs of dashes stay. */
  lemma NormPartIsInfix(s: string)
    requires NormPart(s).Ok?
    ensures exists i :: 0 <= i && IsCutInfix(Fold(ToLower(s)), NormPart(s).value, i, '-')
  {
    TrimInfix(Fold(ToLower(s)), '-');
  }

  /** Folding a normal component changes nothing. */
  lemma {:induction false} FoldKeepsAllowed(t: string)
    requires forall k :: 0 <= k < |t| ==> IsAllowed(t[k])
    ensures Fold(t) == t
  {
    if t != [] {
      var t', c := t[..|t| - 1], t[|t| - 1];
      FoldKeepsAllowed(t');
      assert MapChar(c) == [c];
      assert t == t' + [c];
    }
  }

  /** A component the normaliser emits normalises to itself. */
  lemma NormalPartFixed(p: string)
    requires IsNormalPart(p)
    ensures NormPart(p) == Ok(p)
  {
    ToLowerChars(p);
    assert ToLower(p) == p;
    FoldKeepsAllowed(p);
  }

  /** Normalising a component is idempotent. */
  lemma NormPartIdempotent(s: string)
    requires NormPart(s).Ok?
    ensures NormPart(NormPart(s).value) == NormPart(s)
  {
    NormalPartFixed(NormPart(s).value);
  }

  // ---------------------------------------------------------------------
  // All components

  /** ps lists, in order, what step makes of each of xs. */
  predicate StepsTo(step: string -> Result<string>, xs: seq<string>, ps: seq<string>) {
    |ps| == |xs| && forall k :: 0 <= k < |xs| ==> step(xs[k]) == Ok(ps[k])
  }

  lemma {:induction false} MapAllOkSound(step: string -> Result<string>, xs: seq<string>, ps: seq<string>)
    requires MapAll(step, xs) == Ok(ps)
    ensures StepsTo(step, xs, ps)
  {
    if xs != [] {
      var xs', x := xs[..|xs| - 1], xs[|xs| - 1];
      var qs := MapAll(step, xs').value;
      var p := step(x).value;
      assert ps == qs + [p];
      MapAllOkSound(step, xs', qs);
      forall k | 0 <= k < |xs| ensures step(xs[k]) == Ok(ps[k]) {
        if k < |xs'| { assert xs[k] == xs'[k] && ps[k] == qs[k]; }
      }
    }
  }

  lemma {:induction false} MapAllOkComplete(step: string -> Result<string>, xs: seq<string>, ps: seq<string>)
    requires StepsTo(step, xs, ps)
    ensures MapAll(step, xs) == Ok(ps)
  {
    if xs != [] {
      var xs', ps' := xs[..|xs| - 1], ps[..|ps| - 1];
      forall k | 0 <= k < |xs'| ensures step(xs'[k]) == Ok(ps'[k]) {
        assert xs'[k] == xs[k] && ps'[k] == ps[k];
      }
      MapAllOkComplete(step, xs', ps');
      assert step(xs[|xs| - 1]) == Ok(ps[|ps| - 1]);
      assert ps == ps' + [ps[|ps| - 1]];
    }
  }

  /** The final loop fails exactly when some component is rejected. */
  lemma {:induction false} MapAllFails(step: string -> Result<string>, xs: seq<string>)
    ensures MapAll(step, xs).Err? <==> exists k :: 0 <= k < |xs| && step(xs[k]).Err?
  {
    if xs != [] {
      var xs', x := xs[..|xs| - 1], xs[|xs| - 1];
      MapAllFails(step, xs');
      if MapAll(step, xs').Err? {
      } else if step(x).Err? {
        assert step(xs[|xs| - 1]).Err?;
      } else {
        forall k | 0 <= k < |xs| ensures step(xs[k]).Ok? {
          if k < |xs'| { assert xs[k] == xs'[k]; }
        }
      }
    }
  }

  /** One more step of the final loop: a component that normalises to p
      extends the result by p. */
  lemma MapAllStep(step: string -> Result<string>, xs: seq<string>, i: nat, ps: seq<string>, p: string)
    requires i < |xs|
    requires MapAll(step, xs[..i]) == Ok(ps)
    requires step(xs[i]) == Ok(p)
    ensures MapAll(step, xs[..i + 1]) == Ok(ps + [p])
  {
    assert xs[..i + 1][..i] == xs[..i];
  }

  /** The final loop fails, with its one message, once any component is
      rejected. */
  lemma NormAllStops(xs: seq<string>, i: nat)
    requires i < |xs| && NormPart(xs[i]).Err?
    ensures NormAll(xs) == Err(EmptyComponentMsg)
  {
    NormAllFails(xs);
  }

  /** The normaliser's final loop succeeds with ps exactly when every
      component normalises, ps[k] being component k's normal form: none is
      skipped, none reordered. */
  lemma NormAllOk(xs: seq<string>, ps: seq<string>)
    ensures NormAll(xs) == Ok(ps)
        <==> |ps| == |xs| && forall k :: 0 <= k < |xs| ==> NormPart(xs[k]) == Ok(ps[k])
  {
    if NormAll(xs) == Ok(ps) { MapAllOkSound(NormPart, xs, ps); }
    if StepsTo(NormPart, xs, ps) { MapAllOkComplete(NormPart, xs, ps); }
  }

  /** The normaliser's final loop fails, with its one message, exactly when
      some component is rejected. */
  lemma NormAllFails(xs: seq<string>)
    ensures NormAll(xs).Err? <==> exists k :: 0 <= k < |xs| && NormPart(xs[k]).Err?
    ensures NormAll(xs).Err? ==> NormAll(xs) == Err(EmptyComponentMsg)
  {
    MapAllFails(NormPart, xs);
  }
}
