/** filePathAsURL as the Go code runs it: a filtering loop, a table filled
    in a loop, a per-character loop with a labelled `continue`, and a final
    loop that overwrites each component in place and returns at the first
    rejection. Each method is proved equal to its specification in UrlPath. */
module UrlPathImpl {
  import opened GoStrings
  import opened UrlPath

  /** The filter closure: copy the components, skipping the empty ones. */
  method DropEmpty(ss: seq<string>) returns (r: seq<string>)
    ensures r == NonEmpty(ss)
  {
    r := [];
    for i := 0 to |ss|
      invariant r == NonEmpty(ss[..i])
    {
      assert ss[..i + 1][..i] == ss[..i];
      if ss[i] == [] {
        continue;
      }
      r := r + [ss[i]];
    }
    assert ss[..|ss|] == ss;
  }

  /** The okChars table lists exactly the characters a component keeps. */
  lemma OkCharListAllowed()
    ensures forall c :: c in OkCharList <==> IsAllowed(c)
  {
    forall c | IsAllowed(c) ensures c in OkCharList {
      if c == '-' {
        assert OkCharList[26] == c;
      } else {
        var k := c as int - 'a' as int;
        assert OkCharList[k] == c;
      }
    }
    forall k | 0 <= k < |OkCharList| ensures IsAllowed(OkCharList[k]) {
    }
  }

  /** The okChars table: every character of the list mapped to true. */
  method BuildOkChars() returns (okChars: map<char, bool>)
    ensures forall c :: c in okChars <==> IsAllowed(c)
    ensures forall c :: c in okChars ==> okChars[c]
  {
    okChars := map[];
    for i := 0 to |OkCharList|
      invariant forall c :: c in okChars <==> c in OkCharList[..i]
      invariant forall c :: c in okChars ==> okChars[c]
    {
      assert OkCharList[..i + 1] == OkCharList[..i] + [OkCharList[i]];
      okChars := okChars[OkCharList[i] := true];
    }
    assert OkCharList[..|OkCharList|] == OkCharList;
    OkCharListAllowed();
  }

  /** normParts: lower-case the component, then walk it character by
      character: a dash character adds '-', a character outside okChars is
      dropped, any other is kept; trim the dashes and reject an empty
      result. */
  method NormalizePart(okChars: map<char, bool>, s: string) returns (r: Result<string>)
    requires forall c :: c in okChars <==> IsAllowed(c)
    ensures r == NormPart(s)
  {
    var lowered := ToLower(s);
    var output := "";
    label LOOP: for j := 0 to |lowered|
      invariant output == Fold(lowered[..j])
    {
      var i := lowered[j];
      FoldStep(lowered, j);
      for k := 0 to |DashChars|
        invariant forall m :: 0 <= m < k ==> i != DashChars[m]
      {
        if i == DashChars[k] {
          assert MapChar(i) == "-";
          output := output + "-";
          continue LOOP;
        }
      }
      assert i != DashChars[0] && i != DashChars[1];
      if i !in okChars {
        assert MapChar(i) == [];
        continue;
      }
      assert MapChar(i) == [i];
      output := output + [i];
    }
    assert lowered[..|lowered|] == lowered;
    output := Trim(output, '-');
    if |output| < 1 {
      return Err(EmptyComponentMsg);
    }
    return Ok(output);
  }

  /** The final loop: overwrite each component with its normal form, left
      to right, and stop at the first rejection (whose slot is cleared). On
      success the array holds exactly what NormAll computes. */
  method NormalizeEach(okChars: map<char, bool>, parts: array<string>) returns (r: Result<seq<string>>)
    requires forall c :: c in okChars <==> IsAllowed(c)
    modifies parts
    ensures r == NormAll(old(parts[..]))
    ensures r.Ok? ==> parts[..] == r.value
  {
    ghost var comps := parts[..];
    for i := 0 to parts.Length
      invariant forall k :: i <= k < parts.Length ==> parts[k] == comps[k]
      invariant NormAll(comps[..i]) == Ok(parts[..i])
    {
      var q := NormalizePart(okChars, parts[i]);
      if q.Err? {
        parts[i] := [];
        NormAllStops(comps, i);
        return Err(q.msg);
      }
      ghost var done := parts[..i];
      MapAllStep(NormPart, comps, i, done, q.value);
      parts[i] := q.value;
      assert parts[..i] == done;
      assert parts[..i + 1] == parts[..i] + [parts[i]];
    }
    assert comps[..|comps|] == comps;
    assert parts[..parts.Length] == parts[..];
    return Ok(parts[..]);
  }

  /** filePathAsURL: strip the extension, split, drop the empty components,
      normalise each component in place, and join behind a separator. */
  method FilePathAsURL(f: string) returns (r: Result<string>)
    ensures r == Route(f)
  {
    var stem := TrimSuffix(f, Ext(f));
    var comps := Split(stem);
    comps := DropEmpty(comps);
    var okChars := BuildOkChars();
    var parts := new string[|comps|](k requires 0 <= k < |comps| => comps[k]);
    assert parts[..] == comps;
    var done := NormalizeEach(okChars, parts);
    if done.Err? {
      return Err(done.msg);
    }
    return Ok([Separator] + Join(parts[..]));
  }
}
