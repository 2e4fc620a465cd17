/**
 The observable interface of the prefix map the indexer stores its entries in:
 `New`, `Insert(key, value)` and `GetByPrefix(prefix)`. Its trie is not
 modelled; the map is seen as the sequence of the bindings inserted so far,
 and a lookup returns the value of every binding whose key starts with the
 prefix.
 */
module PrefixMaps {
  import opened Text

  datatype Binding<V> = Binding(key: string, value: V)

  /** The values of the bindings whose key starts with `prefix`, in the order
      they were inserted. */
  function Matching<V>(bindings: seq<Binding<V>>, prefix: string): (r: seq<V>)
    ensures |r| <= |bindings|
  {
    if bindings == [] then []
    else (if IsPrefix(prefix, bindings[0].key) then [bindings[0].value] else [])
         + Matching(bindings[1..], prefix)
  }

  /** Some binding of `v` has a key that starts with `prefix`. */
  ghost predicate BoundUnderPrefix<V>(bindings: seq<Binding<V>>, prefix: string, v: V)
  {
    exists i :: 0 <= i < |bindings| && IsPrefix(prefix, bindings[i].key) && bindings[i].value == v
  }

  /** Every value found comes from a binding whose key starts with the prefix,
      and every such binding's value is found: no other value is returned. */
  lemma {:induction false} MatchingMembers<V>(bindings: seq<Binding<V>>, prefix: string)
    ensures |Matching(bindings, prefix)| <= |bindings|
    ensures forall j :: 0 <= j < |Matching(bindings, prefix)| ==>
      BoundUnderPrefix(bindings, prefix, Matching(bindings, prefix)[j])
    ensures forall i :: 0 <= i < |bindings| && IsPrefix(prefix, bindings[i].key) ==>
      bindings[i].value in Matching(bindings, prefix)
  {
    if bindings != [] {
      var rest := bindings[1..];
      MatchingMembers(rest, prefix);
      var head := if IsPrefix(prefix, bindings[0].key) then [bindings[0].value] else [];
      var r := Matching(bindings, prefix);
      assert r == head + Matching(rest, prefix);
      forall j | 0 <= j < |r|
        ensures BoundUnderPrefix(bindings, prefix, r[j])
      {
        if j >= |head| {
          var k := j - |head|;
          assert r[j] == Matching(rest, prefix)[k];
          assert BoundUnderPrefix(rest, prefix, Matching(rest, prefix)[k]);
          var i :| 0 <= i < |rest| && IsPrefix(prefix, rest[i].key) && rest[i].value == Matching(rest, prefix)[k];
          assert bindings[i + 1] == rest[i];
          assert IsPrefix(prefix, bindings[i + 1].key) && bindings[i + 1].value == r[j];
        } else {
          assert IsPrefix(prefix, bindings[0].key) && bindings[0].value == r[j];
        }
      }
      forall i | 0 <= i < |bindings| && IsPrefix(prefix, bindings[i].key)
        ensures bindings[i].value in r
      {
        if i > 0 {
          assert rest[i - 1] == bindings[i];
        }
      }
    }
  }

  /** Looking up in two batches of insertions gives the first batch's
      results followed by the second's. */
  lemma {:induction false} MatchingAppend<V>(a: seq<Binding<V>>, b: seq<Binding<V>>, prefix: string)
    ensures Matching(a + b, prefix) == Matching(a, prefix) + Matching(b, prefix)
  {
    if a == [] {
      assert a + b == b;
    } else {
      var ab := a + b;
      assert ab[0] == a[0];
      assert ab[1..] == a[1..] + b;
      MatchingAppend(a[1..], b, prefix);
      var head := if IsPrefix(prefix, a[0].key) then [a[0].value] else [];
      calc {
        Matching(ab, prefix);
        head + Matching(ab[1..], prefix);
        head + (Matching(a[1..], prefix) + Matching(b, prefix));
        (head + Matching(a[1..], prefix)) + Matching(b, prefix);
        Matching(a, prefix) + Matching(b, prefix);
      }
    }
  }

  /** The empty prefix matches every key: the lookup returns every inserted
      value, in insertion order. */
  lemma {:induction false} MatchingEmptyPrefix<V>(bindings: seq<Binding<V>>)
    ensures |Matching(bindings, "")| == |bindings|
    ensures forall i :: 0 <= i < |bindings| ==> Matching(bindings, "")[i] == bindings[i].value
  {
    if bindings != [] {
      MatchingEmptyPrefix(bindings[1..]);
    }
  }

  /** Two values inserted under the same key are both found by any prefix of
      that key, and in the order they were inserted, whatever was inserted
      before, between and after them. */
  lemma MatchingKeepsInsertionOrder<V>(before: seq<Binding<V>>, between: seq<Binding<V>>,
                                       after: seq<Binding<V>>, key: string, first: V,
                                       second: V, prefix: string)
    requires IsPrefix(prefix, key)
    ensures Matching(before + [Binding(key, first)] + between + [Binding(key, second)] + after, prefix) ==
      Matching(before, prefix) + [first] + Matching(between, prefix) + [second] + Matching(after, prefix)
    ensures var r := Matching(before + [Binding(key, first)] + between + [Binding(key, second)] + after, prefix);
      exists i, j :: 0 <= i < j < |r| && r[i] == first && r[j] == second
  {
    var one, two := [Binding(key, first)], [Binding(key, second)];
    MatchingAppend(before + one + between + two, after, prefix);
    MatchingAppend(before + one + between, two, prefix);
    MatchingAppend(before + one, between, prefix);
    MatchingAppend(before, one, prefix);
    assert Matching(one, prefix) == [first] && Matching(two, prefix) == [second] by {
      assert one[1..] == [] && two[1..] == [];
    }
    var mb, mw, ma := Matching(before, prefix), Matching(between, prefix), Matching(after, prefix);
    var r := Matching(before + one + between + two + after, prefix);
    assert r == mb + [first] + mw + [second] + ma;
    var i, j := |mb|, |mb| + 1 + |mw|;
    assert r[i] == first && r[j] == second;
  }

  /** The prefix map: an append-only collection of (key, value) bindings. */
  class PrefixMap<V(==)> {
    var bindings: seq<Binding<V>>

    /** `prefixmap.New()`: an empty map. */
    constructor ()
      ensures bindings == []
    {
      bindings := [];
    }

    /** `Insert(key, value)`: the key is used verbatim and duplicate keys are
        kept. Every later lookup finds the new value after the old results
        exactly when the prefix starts the key. */
    method Insert(key: string, value: V)
      modifies this
      ensures bindings == old(bindings) + [Binding(key, value)]
      ensures forall p ::
        GetByPrefix(p) == old(GetByPrefix(p)) + (if IsPrefix(p, key) then [value] else [])
    {
      bindings := bindings + [Binding(key, value)];
      forall p ensures GetByPrefix(p) == old(GetByPrefix(p)) + (if IsPrefix(p, key) then [value] else []) {
        MatchingAppend(old(bindings), [Binding(key, value)], p);
      }
    }

    /** `GetByPrefix(prefix)`: every value whose key starts with `prefix` and
        nothing else; the empty prefix returns every inserted value. */
    function GetByPrefix(prefix: string): (r: seq<V>)
      reads this
      ensures forall j :: 0 <= j < |r| ==> BoundUnderPrefix(bindings, prefix, r[j])
      ensures forall i :: 0 <= i < |bindings| && IsPrefix(prefix, bindings[i].key) ==> bindings[i].value in r
      ensures prefix == "" ==> |r| == |bindings|
    {
      MatchingMembers(bindings, prefix);
      MatchingEmptyPrefix(bindings);
      Matching(bindings, prefix)
    }
  }
}
