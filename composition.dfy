/**
 * The composition and registry builder: for every key of `complex_map`, in the dict's
 * order, look the key up in `new_complexes`, emit one (complex id, protein id) pair per
 * protein of its list, and one registry entry for the complex.
 */
module Composition {
  import opened Wrappers
  import opened Frames
  import opened Resolution

  /** `new_complexes[key]`: a null or flag key never equals a stored key. */
  function ComplexId(key: Cell, newComplexes: map<string, int>): (r: Option<int>)
    ensures r.Some? <==> key.Text? && key.text in newComplexes
    ensures r.Some? ==> r.value == newComplexes[key.text]
    ensures key.Null? ==> r.None?
  {
    if key.Text? && key.text in newComplexes then Some(newComplexes[key.text]) else None
  }

  /** `complex_set` and `complex_table`. */
  datatype Inserts = Inserts(composition: seq<(int, int)>, registry: seq<int>)

  /** The pairs one complex contributes. */
  function Pairs(id: int, members: seq<int>): seq<(int, int)>
  {
    seq(|members|, j requires 0 <= j < |members| => (id, members[j]))
  }

  predicate KeysListed(keys: seq<Cell>, lists: map<Cell, seq<int>>)
  {
    forall k :: 0 <= k < |keys| ==> keys[k] in lists
  }

  /** Lines 71-75 over the keys: the first failing lookup, or the pairs and registry entries. */
  function Build(keys: seq<Cell>, lists: map<Cell, seq<int>>, newComplexes: map<string, int>): Result<Inserts, LoadError>
    requires KeysListed(keys, lists)
  {
    if keys == [] then Ok(Inserts([], []))
    else
      var n := |keys| - 1;
      match Build(keys[..n], lists, newComplexes)
      case Err(e) => Err(e)
      case Ok(acc) =>
        match ComplexId(keys[n], newComplexes)
        case None => Err(MissingComplexId(keys[n]))
        case Some(id) => Ok(Inserts(acc.composition + Pairs(id, lists[keys[n]]), acc.registry + [id]))
  }

  /** The builder over a single key: its pairs and its registry entry, or the failed lookup. */
  lemma SingleKey(key: Cell, lists: map<Cell, seq<int>>, newComplexes: map<string, int>)
    requires key in lists
    ensures Build([key], lists, newComplexes) ==
              if key.Text? && key.text in newComplexes
              then Ok(Inserts(Pairs(newComplexes[key.text], lists[key]), [newComplexes[key.text]]))
              else Err(MissingComplexId(key))
  {
    assert [key][..0] == [];
    assert Build([key][..0], lists, newComplexes) == Ok(Inserts([], []));
    if key.Text? && key.text in newComplexes {
      var id := newComplexes[key.text];
      assert [] + Pairs(id, lists[key]) == Pairs(id, lists[key]);
      assert [] + [id] == [id];
    }
  }

  /** The number of proteins listed under the keys. */
  function Members(keys: seq<Cell>, lists: map<Cell, seq<int>>): nat
    requires KeysListed(keys, lists)
  {
    if keys == [] then 0 else Members(keys[..|keys| - 1], lists) + |lists[keys[|keys| - 1]]|
  }

  /** Once the lookups over a prefix of the keys have failed, the whole builder fails the same way. */
  lemma {:induction false} BuildErrorPersists(keys: seq<Cell>, m: nat, lists: map<Cell, seq<int>>, newComplexes: map<string, int>)
    requires KeysListed(keys, lists)
    requires m <= |keys| && Build(keys[..m], lists, newComplexes).Err?
    ensures Build(keys, lists, newComplexes) == Build(keys[..m], lists, newComplexes)
    decreases |keys| - m
  {
    if m < |keys| {
      var n := |keys| - 1;
      assert keys[..n][..m] == keys[..m];
      BuildErrorPersists(keys[..n], m, lists, newComplexes);
    } else {
      assert keys[..m] == keys;
    }
  }

  /** One more key whose lookup succeeds: its pairs and its registry entry go last. */
  lemma BuildStep(keys: seq<Cell>, i: int, lists: map<Cell, seq<int>>, newComplexes: map<string, int>)
    requires KeysListed(keys, lists) && 0 <= i < |keys|
    requires Build(keys[..i], lists, newComplexes).Ok? && ComplexId(keys[i], newComplexes).Some?
    ensures var acc := Build(keys[..i], lists, newComplexes).value;
      var id := ComplexId(keys[i], newComplexes).value;
      Build(keys[..i + 1], lists, newComplexes) == Ok(Inserts(acc.composition + Pairs(id, lists[keys[i]]), acc.registry + [id]))
  {
    assert keys[..i + 1][..i] == keys[..i];
  }

  lemma PairsStep(id: int, members: seq<int>, j: int)
    requires 0 <= j < |members|
    ensures Pairs(id, members[..j + 1]) == Pairs(id, members[..j]) + [(id, members[j])]
  {
  }

  /** The inner loop of lines 73-74: one pair per member, appended in list order. */
  method AppendPairs(complexSet: seq<(int, int)>, complexId: int, members: seq<int>) returns (r: seq<(int, int)>)
    ensures r == complexSet + Pairs(complexId, members)
  {
    r := complexSet;
    for j := 0 to |members|
      invariant r == complexSet + Pairs(complexId, members[..j])
    {
      PairsStep(complexId, members, j);
      r := r + [(complexId, members[j])];
    }
    assert members[..|members|] == members;
  }

  /** The loop of lines 71-75. */
  method BuildInserts(complexMap: ComplexMap, newComplexes: map<string, int>) returns (r: Result<Inserts, LoadError>)
    requires KeysListed(complexMap.keys, complexMap.lists)
    ensures r == Build(complexMap.keys, complexMap.lists, newComplexes)
  {
    var keys := complexMap.keys;
    var complexSet: seq<(int, int)> := [];
    var complexTable: seq<int> := [];
    for i := 0 to |keys|
      invariant Build(keys[..i], complexMap.lists, newComplexes) == Ok(Inserts(complexSet, complexTable))
    {
      var complexName := keys[i];
      if !(complexName.Text? && complexName.text in newComplexes) {
        BuildErrorPersists(keys, i + 1, complexMap.lists, newComplexes);
        assert keys[..i + 1][..i] == keys[..i];
        return Err(MissingComplexId(complexName));
      }
      var complexId := newComplexes[complexName.text];
      var members := complexMap.lists[complexName];
      BuildStep(keys, i, complexMap.lists, newComplexes);
      complexSet := AppendPairs(complexSet, complexId, members);
      complexTable := complexTable + [complexId];
    }
    assert keys[..|keys|] == keys;
    r := Ok(Inserts(complexSet, complexTable));
  }

  // ----- what the builder guarantees -----

  /**
   * The builder succeeds exactly when every key has an id in `new_complexes`; otherwise
   * it raises for the first key that has none.
   */
  lemma {:induction false} BuildFailure(keys: seq<Cell>, lists: map<Cell, seq<int>>, newComplexes: map<string, int>)
    requires KeysListed(keys, lists)
    ensures Build(keys, lists, newComplexes).Ok? <==> forall i :: 0 <= i < |keys| ==> ComplexId(keys[i], newComplexes).Some?
    ensures Build(keys, lists, newComplexes).Err? ==>
              exists i :: 0 <= i < |keys| && ComplexId(keys[i], newComplexes).None? &&
                (forall j :: 0 <= j < i ==> ComplexId(keys[j], newComplexes).Some?) &&
                Build(keys, lists, newComplexes).error == MissingComplexId(keys[i])
  {
    if keys != [] {
      var n := |keys| - 1;
      BuildFailure(keys[..n], lists, newComplexes);
      assert forall i :: 0 <= i < n ==> keys[..n][i] == keys[i];
    }
  }

  /**
   * On success: one registry entry per key, in key order, each the key's id; as many pairs
   * as the lists hold proteins.
   */
  lemma {:induction false} BuildCounts(keys: seq<Cell>, lists: map<Cell, seq<int>>, newComplexes: map<string, int>)
    requires KeysListed(keys, lists)
    requires Build(keys, lists, newComplexes).Ok?
    ensures var ins := Build(keys, lists, newComplexes).value;
      && |ins.registry| == |keys|
      && (forall i :: 0 <= i < |keys| ==> ComplexId(keys[i], newComplexes) == Some(ins.registry[i]))
      && |ins.composition| == Members(keys, lists)
  {
    if keys != [] {
      var n := |keys| - 1;
      BuildCounts(keys[..n], lists, newComplexes);
      assert forall i :: 0 <= i < n ==> keys[..n][i] == keys[i];
    }
  }

  /**
   * On success the pairs are exactly the (id of key, protein) combinations of the lists:
   * every pair comes from a key and one of its proteins, and every protein of every key
   * gives a pair.
   */
  lemma {:induction false} BuildPairs(keys: seq<Cell>, lists: map<Cell, seq<int>>, newComplexes: map<string, int>)
    requires KeysListed(keys, lists)
    requires Build(keys, lists, newComplexes).Ok?
    ensures var comp := Build(keys, lists, newComplexes).value.composition;
      forall t :: 0 <= t < |comp| ==>
        exists i :: 0 <= i < |keys| && ComplexId(keys[i], newComplexes) == Some(comp[t].0) && comp[t].1 in lists[keys[i]]
    ensures var comp := Build(keys, lists, newComplexes).value.composition;
      forall i, p :: 0 <= i < |keys| && ComplexId(keys[i], newComplexes).Some? && p in lists[keys[i]] ==>
        (ComplexId(keys[i], newComplexes).value, p) in comp
  {
    if keys != [] {
      var n := |keys| - 1;
      var pre := keys[..n];
      BuildPairs(pre, lists, newComplexes);
      assert forall i :: 0 <= i < n ==> pre[i] == keys[i];
      var acc := Build(pre, lists, newComplexes).value;
      var id := ComplexId(keys[n], newComplexes).value;
      var block := Pairs(id, lists[keys[n]]);
      var comp := Build(keys, lists, newComplexes).value.composition;
      assert comp == acc.composition + block;
      forall t | 0 <= t < |comp|
        ensures exists i :: 0 <= i < |keys| && ComplexId(keys[i], newComplexes) == Some(comp[t].0) && comp[t].1 in lists[keys[i]]
      {
        if t < |acc.composition| {
          assert comp[t] == acc.composition[t];
          var i :| 0 <= i < n && ComplexId(pre[i], newComplexes) == Some(acc.composition[t].0) && acc.composition[t].1 in lists[pre[i]];
          assert keys[i] == pre[i];
        } else {
          assert comp[t] == block[t - |acc.composition|];
          assert ComplexId(keys[n], newComplexes) == Some(comp[t].0);
        }
      }
      forall i, p | 0 <= i < |keys| && ComplexId(keys[i], newComplexes).Some? && p in lists[keys[i]]
        ensures (ComplexId(keys[i], newComplexes).value, p) in comp
      {
        if i < n {
          assert pre[i] == keys[i];
          assert (ComplexId(pre[i], newComplexes).value, p) in acc.composition;
        } else {
          var j :| 0 <= j < |lists[keys[n]]| && lists[keys[n]][j] == p;
          assert block[j] == (id, p);
          assert comp[|acc.composition| + j] == (id, p);
        }
      }
    }
  }

  // ----- the pairs of one complex -----

  /** The proteins paired with `id` in the composition, in the order the pairs were appended. */
  function Partners(comp: seq<(int, int)>, id: int): seq<int>
  {
    if comp == [] then []
    else
      var n := |comp| - 1;
      Partners(comp[..n], id) + (if comp[n].0 == id then [comp[n].1] else [])
  }

  lemma {:induction false} PartnersAppend(a: seq<(int, int)>, b: seq<(int, int)>, id: int)
    ensures Partners(a + b, id) == Partners(a, id) + Partners(b, id)
    decreases |b|
  {
    if b == [] {
      assert a + b == a;
    } else {
      var n := |b| - 1;
      assert (a + b)[..|a + b| - 1] == a + b[..n];
      PartnersAppend(a, b[..n], id);
    }
  }

  /** The block one complex contributes pairs all its proteins, in list order, with its own id. */
  lemma {:induction false} PartnersPairs(owner: int, members: seq<int>, id: int)
    ensures Partners(Pairs(owner, members), id) == if owner == id then members else []
    decreases |members|
  {
    if members != [] {
      var n := |members| - 1;
      assert Pairs(owner, members)[..n] == Pairs(owner, members[..n]);
      PartnersPairs(owner, members[..n], id);
      assert members[..n] + [members[n]] == members;
    }
  }

  /** On success, an id that no key has is paired with nothing. */
  lemma {:induction false} BuildNoPartners(keys: seq<Cell>, lists: map<Cell, seq<int>>, newComplexes: map<string, int>,
                                           id: int)
    requires KeysListed(keys, lists)
    requires Build(keys, lists, newComplexes).Ok?
    requires forall j :: 0 <= j < |keys| ==> ComplexId(keys[j], newComplexes) != Some(id)
    ensures Partners(Build(keys, lists, newComplexes).value.composition, id) == []
  {
    if keys != [] {
      var n := |keys| - 1;
      var pre := keys[..n];
      assert forall j :: 0 <= j < n ==> pre[j] == keys[j];
      BuildNoPartners(pre, lists, newComplexes, id);
      var acc := Build(pre, lists, newComplexes).value;
      var owner := ComplexId(keys[n], newComplexes).value;
      PartnersAppend(acc.composition, Pairs(owner, lists[keys[n]]), id);
      PartnersPairs(owner, lists[keys[n]], id);
    }
  }

  /**
   * On success, a key whose id no other key shares has exactly its list as partners:
   * one pair per listed protein, repeats included, in list order.
   */
  lemma {:induction false} BuildPartners(keys: seq<Cell>, lists: map<Cell, seq<int>>, newComplexes: map<string, int>,
                                         i: int)
    requires KeysListed(keys, lists)
    requires Build(keys, lists, newComplexes).Ok?
    requires 0 <= i < |keys| && ComplexId(keys[i], newComplexes).Some?
    requires forall j :: 0 <= j < |keys| && j != i ==> ComplexId(keys[j], newComplexes) != ComplexId(keys[i], newComplexes)
    ensures Partners(Build(keys, lists, newComplexes).value.composition, ComplexId(keys[i], newComplexes).value) == lists[keys[i]]
  {
    var id := ComplexId(keys[i], newComplexes).value;
    var n := |keys| - 1;
    var pre := keys[..n];
    assert forall j :: 0 <= j < n ==> pre[j] == keys[j];
    var acc := Build(pre, lists, newComplexes).value;
    var owner := ComplexId(keys[n], newComplexes).value;
    PartnersAppend(acc.composition, Pairs(owner, lists[keys[n]]), id);
    PartnersPairs(owner, lists[keys[n]], id);
    if i < n {
      BuildPartners(pre, lists, newComplexes, i);
    } else {
      BuildNoPartners(pre, lists, newComplexes, id);
    }
  }
}
