/** The two per-association statistics: how many offers each association posted, and how many
    approved demands each association's members hold. */
module Statistics {
  import opened Outcomes
  import opened Entities
  import opened JavaLang

  /** The keys `key` gives the elements of `s`, in order; an element it maps to None adds nothing. */
  function KeysOf<T>(s: seq<T>, key: T -> Option<int>): (r: seq<int>)
    ensures |r| <= |s|
  {
    if s == [] then []
    else
      var k := key(s[|s| - 1]);
      KeysOf(s[..|s| - 1], key) + (if k.Some? then [k.value] else [])
  }

  /** The positions of the elements that `key` maps to k. */
  ghost function KeyedIndices<T>(s: seq<T>, key: T -> Option<int>, k: int): (r: set<int>)
    ensures forall i :: i in r <==> 0 <= i < |s| && key(s[i]) == Some(k)
  {
    set i | 0 <= i < |s| && key(s[i]) == Some(k)
  }

  /** The positions of the elements that `key` maps to some key. */
  ghost function KeyedPositions<T>(s: seq<T>, key: T -> Option<int>): (r: set<int>)
    ensures forall i :: i in r <==> 0 <= i < |s| && key(s[i]).Some?
  {
    set i | 0 <= i < |s| && key(s[i]).Some?
  }

  lemma IndicesSnoc<T>(s: seq<T>, key: T -> Option<int>, k: int)
    requires s != []
    ensures KeyedIndices(s, key, k)
         == KeyedIndices(s[..|s| - 1], key, k) + (if key(s[|s| - 1]) == Some(k) then {|s| - 1} else {})
  {
    var p := s[..|s| - 1];
    forall i | 0 <= i < |p| ensures p[i] == s[i] {}
  }

  lemma PositionsSnoc<T>(s: seq<T>, key: T -> Option<int>)
    requires s != []
    ensures KeyedPositions(s, key)
         == KeyedPositions(s[..|s| - 1], key) + (if key(s[|s| - 1]).Some? then {|s| - 1} else {})
  {
    var p := s[..|s| - 1];
    forall i | 0 <= i < |p| ensures p[i] == s[i] {}
  }

  lemma KeysOfSnoc<T>(s: seq<T>, x: T, key: T -> Option<int>)
    ensures KeysOf(s + [x], key) == KeysOf(s, key) + (if key(x).Some? then [key(x).value] else [])
  {
    assert (s + [x])[..|s|] == s;
  }

  /** Key k occurs once for every element that `key` maps to k. */
  lemma {:induction false} KeysOfMultiplicity<T>(s: seq<T>, key: T -> Option<int>, k: int)
    ensures multiset(KeysOf(s, key))[k] == |KeyedIndices(s, key, k)|
  {
    if s == [] {
      assert KeyedIndices(s, key, k) == {};
    } else {
      var p := s[..|s| - 1];
      KeysOfMultiplicity(p, key, k);
      IndicesSnoc(s, key, k);
      assert |p| !in KeyedIndices(p, key, k);
    }
  }

  /** One key for every element that `key` maps to some key. */
  lemma {:induction false} KeysOfCount<T>(s: seq<T>, key: T -> Option<int>)
    ensures |KeysOf(s, key)| == |KeyedPositions(s, key)|
  {
    if s == [] {
      assert KeyedPositions(s, key) == {};
    } else {
      var p := s[..|s| - 1];
      KeysOfCount(p, key);
      PositionsSnoc(s, key);
      assert |p| !in KeyedPositions(p, key);
    }
  }

  /** HashMap.merge(k, 1, Integer::sum). */
  function Merge(m: map<int, nat>, k: int): (r: map<int, nat>)
    ensures r.Keys == m.Keys + {k}
    ensures r[k] == (if k in m then m[k] else 0) + 1
    ensures forall j :: j in m && j != k ==> r[j] == m[j]
  {
    m[k := if k in m then m[k] + 1 else 1]
  }

  /** Grouping keys and counting each group: the map from every key to its number of occurrences. */
  function CountBy(keys: seq<int>): (r: map<int, nat>)
    ensures forall k :: k in r <==> k in keys
    ensures forall k :: k in r ==> r[k] == multiset(keys)[k]
  {
    if keys == [] then map[]
    else
      var p := keys[..|keys| - 1];
      assert keys == p + [keys[|keys| - 1]];
      Merge(CountBy(p), keys[|keys| - 1])
  }

  lemma HasKey(m: map<int, nat>)
    requires m != map[]
    ensures exists k :: k in m
  {
    if forall k :: k !in m {
      assert false;
    }
  }

  /** Some key of a non-empty map. */
  ghost function Pick(m: map<int, nat>): (k: int)
    requires m != map[]
    ensures k in m
  {
    HasKey(m);
    var k :| k in m;
    k
  }

  lemma CountBySnoc(keys: seq<int>, k: int)
    ensures CountBy(keys + [k]) == Merge(CountBy(keys), k)
  {
    assert (keys + [k])[..|keys|] == keys;
  }

  /** The sum of a map's values. */
  ghost function SumValues(m: map<int, nat>): nat
    decreases |m|
  {
    if m == map[] then 0
    else
      var k := Pick(m);
      m[k] + SumValues(m - {k})
  }

  /** The sum does not depend on the key taken first. */
  lemma {:induction false} SumValuesRemove(m: map<int, nat>, k: int)
    requires k in m
    ensures SumValues(m) == m[k] + SumValues(m - {k})
    decreases |m|
  {
    var j := Pick(m);
    if j != k {
      SumValuesRemove(m - {j}, k);
      SumValuesRemove(m - {k}, j);
      assert m - {j} - {k} == m - {k} - {j};
    }
  }

  lemma SumMerge(m: map<int, nat>, k: int)
    ensures SumValues(Merge(m, k)) == SumValues(m) + 1
  {
    var n := Merge(m, k);
    SumValuesRemove(n, k);
    assert n - {k} == m - {k};
    if k in m {
      SumValuesRemove(m, k);
    } else {
      assert m - {k} == m;
    }
  }

  /** Counting n keys gives counts that add up to n. */
  lemma {:induction false} CountBySum(keys: seq<int>)
    ensures SumValues(CountBy(keys)) == |keys|
  {
    if keys != [] {
      var p := keys[..|keys| - 1];
      CountBySum(p);
      SumMerge(CountBy(p), keys[|keys| - 1]);
    } else {
      assert CountBy(keys) == map[];
    }
  }

  /** The group key of an offer: its association's id, narrowed by Long.intValue. */
  function OfferKey(o: OfferRow): Option<int>
  {
    if o.association.Some? then Some(IntValue(o.association.value)) else None
  }

  /** getOfferCountByAssociation over the offer table. */
  function OfferCountByAssociation(offers: seq<OfferRow>): map<int, nat>
  {
    CountBy(KeysOf(offers, OfferKey))
  }

  /** Each key maps to the number of offers whose association id narrows to it, and only keys of
      such offers appear. */
  lemma OfferCountIsPerAssociation(offers: seq<OfferRow>, k: int)
    ensures k in OfferCountByAssociation(offers) <==> exists i :: 0 <= i < |offers| && OfferKey(offers[i]) == Some(k)
    ensures k in OfferCountByAssociation(offers) ==>
      OfferCountByAssociation(offers)[k] == |KeyedIndices(offers, OfferKey, k)|
  {
    KeysOfMultiplicity(offers, OfferKey, k);
    KeyedCount(offers, OfferKey, k);
  }

  /** The counts add up to the number of offers that have an association. */
  lemma OfferCountSum(offers: seq<OfferRow>)
    ensures SumValues(OfferCountByAssociation(offers)) == |KeyedPositions(offers, OfferKey)|
    ensures forall i :: i in KeyedPositions(offers, OfferKey) <==> 0 <= i < |offers| && offers[i].association.Some?
  {
    CountBySum(KeysOf(offers, OfferKey));
    KeysOfCount(offers, OfferKey);
  }

  /** Counting keys: k is in the map exactly when some element has key k, and then maps to the
      number of such elements. */
  lemma KeyedCount<T>(s: seq<T>, key: T -> Option<int>, k: int)
    requires multiset(KeysOf(s, key))[k] == |KeyedIndices(s, key, k)|
    ensures k in CountBy(KeysOf(s, key)) <==> exists i :: 0 <= i < |s| && key(s[i]) == Some(k)
    ensures k in CountBy(KeysOf(s, key)) ==> CountBy(KeysOf(s, key))[k] == |KeyedIndices(s, key, k)|
  {
    var b := KeyedIndices(s, key, k);
    if exists i :: 0 <= i < |s| && key(s[i]) == Some(k) {
      var i :| 0 <= i < |s| && key(s[i]) == Some(k);
      assert i in b;
      assert |b| >= 1;
      assert k in multiset(KeysOf(s, key));
    } else {
      assert b == {};
    }
  }

  /** The approved demands, in table order. */
  function ApprovedOf(ds: seq<Demand>): (r: seq<Demand>)
    ensures |r| <= |ds|
    ensures forall d :: multiset(r)[d] == if d.status == Approved then multiset(ds)[d] else 0
  {
    if ds == [] then []
    else
      var d := ds[|ds| - 1];
      assert ds == ds[..|ds| - 1] + [d];
      ApprovedOf(ds[..|ds| - 1]) + (if d.status == Approved then [d] else [])
  }

  /** The winning association of a demand: its demander's association id, narrowed by
      Long.intValue; None when the demander or its association is missing. */
  function DemanderKey(d: Demand, members: seq<Member>): Option<int>
  {
    if d.demander.None? then None
    else match FindById(members, d.demander.value)
      case None => None
      case Some(m) => if m.association.Some? then Some(IntValue(m.association.value)) else None
  }

  function DemanderKeyOf(members: seq<Member>): Demand -> Option<int>
  {
    (d: Demand) => DemanderKey(d, members)
  }

  /** The key of a demand that counts as a win: approved, with a demander in an association. */
  function WinKeyOf(members: seq<Member>): Demand -> Option<int>
  {
    (d: Demand) => if d.status == Approved then DemanderKey(d, members) else None
  }

  /** getOfferWinsByAssociation over the demand and member tables. */
  function WinsByAssociation(demands: seq<Demand>, members: seq<Member>): map<int, nat>
  {
    CountBy(KeysOf(ApprovedOf(demands), DemanderKeyOf(members)))
  }

  /** One more approved demand adds its demander's association key, if it has one, and the
      grouping merges it in. */
  lemma WinsStep(ds: seq<Demand>, members: seq<Member>, i: int, keys: seq<int>, r: map<int, nat>)
    requires 0 <= i < |ds|
    requires keys == KeysOf(ds[..i], DemanderKeyOf(members)) && r == CountBy(keys)
    ensures var k := DemanderKey(ds[i], members);
      && (k.None? ==> KeysOf(ds[..i + 1], DemanderKeyOf(members)) == keys)
      && (k.Some? ==> KeysOf(ds[..i + 1], DemanderKeyOf(members)) == keys + [k.value])
      && (k.Some? ==> CountBy(keys + [k.value]) == Merge(r, k.value))
  {
    assert ds[..i + 1] == ds[..i] + [ds[i]];
    KeysOfSnoc(ds[..i], ds[i], DemanderKeyOf(members));
    var k := DemanderKey(ds[i], members);
    if k.Some? {
      CountBySnoc(keys, k.value);
    }
  }

  /** Filtering to the approved demands first and then skipping demanders without an association
      keeps the same keys as skipping every demand that is not a win. */
  lemma {:induction false} ApprovedKeys(ds: seq<Demand>, members: seq<Member>)
    ensures KeysOf(ApprovedOf(ds), DemanderKeyOf(members)) == KeysOf(ds, WinKeyOf(members))
  {
    if ds != [] {
      var p := ds[..|ds| - 1];
      var d := ds[|ds| - 1];
      var dk, wk := DemanderKeyOf(members), WinKeyOf(members);
      ApprovedKeys(p, members);
      var tail := if wk(d).Some? then [wk(d).value] else [];
      assert KeysOf(ds, wk) == KeysOf(p, wk) + tail;
      if d.status == Approved {
        var a := ApprovedOf(p) + [d];
        assert ApprovedOf(ds) == a;
        assert a[..|a| - 1] == ApprovedOf(p);
        assert dk(d) == wk(d);
        assert KeysOf(a, dk) == KeysOf(ApprovedOf(p), dk) + tail;
      } else {
        assert ApprovedOf(ds) == ApprovedOf(p);
        assert wk(d) == None;
      }
    }
  }

  /** Each key maps to the number of approved demands whose demander's association id narrows to it. */
  lemma WinsArePerAssociation(demands: seq<Demand>, members: seq<Member>, k: int)
    ensures k in WinsByAssociation(demands, members) <==>
      exists i :: 0 <= i < |demands| && WinKeyOf(members)(demands[i]) == Some(k)
    ensures k in WinsByAssociation(demands, members) ==>
      WinsByAssociation(demands, members)[k] == |KeyedIndices(demands, WinKeyOf(members), k)|
  {
    ApprovedKeys(demands, members);
    KeysOfMultiplicity(demands, WinKeyOf(members), k);
    KeyedCount(demands, WinKeyOf(members), k);
  }

  /** The wins add up to the number of approved demands whose demander has an association. */
  lemma WinsSum(demands: seq<Demand>, members: seq<Member>)
    ensures SumValues(WinsByAssociation(demands, members)) == |KeyedPositions(demands, WinKeyOf(members))|
  {
    var wk := WinKeyOf(members);
    ApprovedKeys(demands, members);
    assert WinsByAssociation(demands, members) == CountBy(KeysOf(demands, wk));
    CountBySum(KeysOf(demands, wk));
    KeysOfCount(demands, wk);
  }
}
