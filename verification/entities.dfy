/** The named-entity placeholder filter of `DataSet.remove_entities`
    (datasets/sts.py). */
module Entities {

  /** The filter list exactly as written in the source. A missing comma makes
      the sixth entry the single string `"LOC" + "PRODUCT"`, that is
      `"LOCPRODUCT"`: neither `LOC` nor `PRODUCT` is on the list. */
  const EntityList: seq<string> :=
    ["PERSON", "NORP", "FACILITY", "ORG", "GPE", "LOC" +
     "PRODUCT", "EVENT", "WORK_OF_ART", "LANGUAGE",
     "DATE", "TIME", "PERCENT", "MONEY", "QUANTITY",
     "ORDINAL", "CARDINAL", "BOE", "EOE"]

  predicate IsEntity(token: string)
  {
    token in EntityList
  }

  /** One sentence with every listed token dropped. */
  function FilterTokens(d: seq<string>): (r: seq<string>)
    ensures |r| <= |d|
    ensures forall i :: 0 <= i < |r| ==> !IsEntity(r[i])
  {
    if d == [] then []
    else if IsEntity(d[0]) then FilterTokens(d[1..])
    else [d[0]] + FilterTokens(d[1..])
  }

  /** The filter commutes with concatenation: it never reorders the
      tokens it keeps. */
  lemma {:induction false} FilterAppend(a: seq<string>, b: seq<string>)
    ensures FilterTokens(a + b) == FilterTokens(a) + FilterTokens(b)
  {
    if a == [] {
      assert a + b == b;
    } else {
      FilterAppend(a[1..], b);
      var ab := a + b;
      assert ab[0] == a[0];
      assert ab[1..] == a[1..] + b;
      if !IsEntity(a[0]) {
        var x, y := FilterTokens(a[1..]), FilterTokens(b);
        assert FilterTokens(ab) == [a[0]] + (x + y);
        assert [a[0]] + (x + y) == ([a[0]] + x) + y;
      }
    }
  }

  /** Each kept token occurs as often as in the input; each listed token
      not at all. */
  lemma {:induction false} FilterCounts(d: seq<string>, t: string)
    ensures multiset(FilterTokens(d))[t] == if IsEntity(t) then 0 else multiset(d)[t]
  {
    if d != [] {
      FilterCounts(d[1..], t);
      assert d == [d[0]] + d[1..];
      assert multiset(d) == multiset{d[0]} + multiset(d[1..]);
    }
  }

  /** A token is kept exactly when it occurs in the input and is not
      listed. */
  lemma FilterMembers(d: seq<string>, t: string)
    ensures t in FilterTokens(d) <==> t in d && !IsEntity(t)
  {
    FilterCounts(d, t);
  }

  /** Filtering twice is filtering once. */
  lemma {:induction false} FilterIdempotent(d: seq<string>)
    ensures FilterTokens(FilterTokens(d)) == FilterTokens(d)
  {
    if d != [] {
      FilterIdempotent(d[1..]);
      if !IsEntity(d[0]) {
        var rest := FilterTokens(d[1..]);
        assert ([d[0]] + rest)[0] == d[0];
        assert ([d[0]] + rest)[1..] == rest;
      }
    }
  }

  /** A sentence with no listed token passes through unchanged. */
  lemma {:induction false} FilterNoEntities(d: seq<string>)
    requires forall i :: 0 <= i < |d| ==> !IsEntity(d[i])
    ensures FilterTokens(d) == d
  {
    if d != [] {
      FilterNoEntities(d[1..]);
      assert d == [d[0]] + d[1..];
    }
  }

  /** The concatenation quirk: `LOC` and `PRODUCT` are not on the list,
      only the glued string `LOCPRODUCT` is. */
  lemma LocAndProductNotListed()
    ensures !IsEntity("LOC") && !IsEntity("PRODUCT") && IsEntity("LOCPRODUCT")
  {
    assert EntityList[5] == "LOCPRODUCT";
    forall i | 0 <= i < |EntityList|
      ensures EntityList[i] != "LOC" && EntityList[i] != "PRODUCT"
    {
      assert |EntityList[i]| != 3 || EntityList[i][0] != 'L';
      assert |EntityList[i]| != 7 || EntityList[i][0] != 'P' || EntityList[i][1] != 'R';
    }
  }

  /** Consequently the filter keeps `LOC` and `PRODUCT` and drops only the
      glued string. */
  lemma LocAndProductKept()
    ensures FilterTokens(["LOC", "PRODUCT", "LOCPRODUCT"]) == ["LOC", "PRODUCT"]
  {
    LocAndProductNotListed();
    var d := ["LOC", "PRODUCT", "LOCPRODUCT"];
    assert d[1..][1..] == ["LOCPRODUCT"];
    assert FilterTokens(["LOCPRODUCT"]) == [];
    assert FilterTokens(d[1..]) == ["PRODUCT"];
  }

  /** A sentence of placeholders and words keeps only the words. */
  lemma PlaceholdersDropped()
    ensures FilterTokens(["PERSON", "eats", "ORG"]) == ["eats"]
  {
  }

  /** `remove_entities(data)`: the nested loops of the source, filtering
      every sentence of the batch in place of the original. */
  method RemoveEntities(data: seq<seq<string>>) returns (r: seq<seq<string>>)
    ensures |r| == |data|
    ensures forall i :: 0 <= i < |data| ==> r[i] == FilterTokens(data[i])
  {
    r := [];
    var i := 0;
    while i < |data|
      invariant 0 <= i <= |data|
      invariant |r| == i
      invariant forall k :: 0 <= k < i ==> r[k] == FilterTokens(data[k])
    {
      var d := data[i];
      var kept := [];
      var j := 0;
      while j < |d|
        invariant 0 <= j <= |d|
        invariant kept == FilterTokens(d[..j])
      {
        FilterAppend(d[..j], [d[j]]);
        assert d[..j + 1] == d[..j] + [d[j]];
        if !IsEntity(d[j]) {
          kept := kept + [d[j]];
        }
        j := j + 1;
      }
      assert d[..j] == d;
      r := r + [kept];
      i := i + 1;
    }
  }
}
